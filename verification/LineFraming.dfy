/** The newline framing of the processor's socket: chunks in, requests out. */
module LineFraming {
  import opened ByteChunks
  import opened CanonicalJson
  import opened JsonReader
  import opened JsonText
  import opened LossyUtf8
  import opened ProcessorProtocol
  import opened SplitText
  import opened Utf8
  import opened Uuids
  import opened Wrappers

  const MAXIMUM_PROTOCOL_LINE_BYTES := 16 * 1024

  /** `JSON.parse`; `None` is a thrown `SyntaxError`. */
  type Parser = string -> Option<Json>

  datatype Link = Link(buffer: string, destroyed: bool, requests: seq<Request>)

  const OPENED := Link("", false, [])

  function HandledLine(parse: Parser, line: string): seq<Request> {
    var value := parse(line);
    var request := if value.Some? then ParseRequest(value.value) else None;
    if request.Some? then [request.value] else []
  }

  /** The requests among these lines; other lines are ignored. */
  function Handled(parse: Parser, lines: seq<string>): seq<Request> {
    if lines == [] then [] else HandledLine(parse, lines[0]) + Handled(parse, lines[1..])
  }

  /** The complete lines of a text, and what follows the last newline. */
  function Lines(s: string): seq<string> {
    var pieces := Split(s, '\n');
    pieces[..|pieces| - 1]
  }

  function Tail(s: string): string {
    var pieces := Split(s, '\n');
    pieces[|pieces| - 1]
  }

  /** One `data` event. Every chunk is decoded by itself; the limit is on the bytes of the text that results. */
  function Receive(parse: Parser, l: Link, chunk: seq<byte>): Link {
    var joined := l.buffer + DecodeLossy(chunk);
    if l.destroyed then l
    else if |Encode(joined)| > MAXIMUM_PROTOCOL_LINE_BYTES then l.(buffer := joined, destroyed := true)
    else Link(Tail(joined), false, l.requests + Handled(parse, Lines(joined)))
  }

  function ReceiveAll(parse: Parser, l: Link, chunks: seq<seq<byte>>): Link {
    if chunks == [] then l
    else Receive(parse, ReceiveAll(parse, l, chunks[..|chunks| - 1]), chunks[|chunks| - 1])
  }

  class Connection {
    const parse: Parser
    var buffer: string
    var destroyed: bool
    var requests: seq<Request>

    constructor (parse: Parser)
      ensures this.parse == parse && State() == OPENED
    {
      this.parse := parse;
      buffer, destroyed, requests := "", false, [];
    }

    function State(): Link
      reads this
    {
      Link(buffer, destroyed, requests)
    }

    method OnData(chunk: seq<byte>)
      requires !destroyed
      modifies this
      ensures State() == Receive(parse, old(State()), chunk)
    {
      buffer := buffer + DecodeLossy(chunk);
      if |Encode(buffer)| > MAXIMUM_PROTOCOL_LINE_BYTES {
        destroyed := true;
        return;
      }
      HandleLines();
    }

    method HandleLines()
      modifies this`buffer, this`requests
      ensures buffer == Tail(old(buffer))
      ensures requests == old(requests) + Handled(parse, Lines(old(buffer)))
    {
      hide Handled, Lines, Tail, HandledLine;
      ghost var all := old(requests) + Handled(parse, Lines(buffer));
      var newline: Option<nat> := FindNewline(buffer);
      while newline.Some?
        invariant newline.Some? <==> '\n' in buffer
        invariant newline.Some? ==> newline.value < |buffer| && buffer[newline.value] == '\n'
        invariant newline.Some? ==> '\n' !in buffer[..newline.value]
        invariant Tail(buffer) == Tail(old(buffer))
        invariant requests + Handled(parse, Lines(buffer)) == all
        decreases |buffer|
      {
        var line, rest := buffer[..newline.value], buffer[newline.value + 1..];
        assert buffer == line + ['\n'] + rest;
        LineTaken(parse, line, rest);
        ghost var before := requests;
        HandleLine(line);
        assert before + (HandledLine(parse, line) + Handled(parse, Lines(rest)))
            == requests + Handled(parse, Lines(rest));
        buffer := rest;
        newline := FindNewline(buffer);
      }
      NoLines(parse, buffer);
      assert requests + [] == requests;
    }

    /** What a line that is no request asks for is nothing. */
    method HandleLine(line: string)
      modifies this`requests
      ensures requests == old(requests) + HandledLine(parse, line)
    {
      var value := parse(line);
      if value.Some? {
        var request := ParseRequest(value.value);
        if request.Some? {
          requests := requests + [request.value];
        }
      }
    }

    /** `indexOf("\n")` */
    method FindNewline(s: string) returns (i: Option<nat>)
      ensures i.Some? <==> '\n' in s
      ensures i.Some? ==> i.value < |s| && s[i.value] == '\n' && '\n' !in s[..i.value]
    {
      for k := 0 to |s|
        invariant '\n' !in s[..k]
      {
        if s[k] == '\n' {
          return Some(k);
        }
      }
      return None;
    }
  }

  lemma NoLines(parse: Parser, s: string)
    requires '\n' !in s
    ensures Tail(s) == s && Lines(s) == [] && Handled(parse, Lines(s)) == []
  {
    SplitWithout(s, '\n');
  }

  lemma LineTaken(parse: Parser, line: string, rest: string)
    requires '\n' !in line
    ensures Tail(line + ['\n'] + rest) == Tail(rest)
    ensures Lines(line + ['\n'] + rest) == [line] + Lines(rest)
    ensures Handled(parse, Lines(line + ['\n'] + rest)) == HandledLine(parse, line) + Handled(parse, Lines(rest))
  {
    SplitOfJoined(line, '\n', rest);
    assert ([line] + Lines(rest))[1..] == Lines(rest);
  }

  // ----- chunks do not matter

  lemma {:induction false} SplitAppend(a: string, b: string)
    ensures Lines(a + b) == Lines(a) + Lines(Tail(a) + b)
    ensures Tail(a + b) == Tail(Tail(a) + b)
    ensures '\n' !in Tail(a)
    decreases |a|
  {
    if '\n' in a {
      var i := FirstNewline(a);
      var line, rest := a[..i], a[i + 1..];
      assert a == line + ['\n'] + rest;
      assert a + b == line + ['\n'] + (rest + b);
      SplitOfJoined(line, '\n', rest);
      SplitOfJoined(line, '\n', rest + b);
      SplitAppend(rest, b);
      hide Split;
      assert Lines(a) == [line] + Lines(rest) && Lines(a + b) == [line] + Lines(rest + b);
    } else {
      SplitWithout(a, '\n');
    }
  }

  lemma FirstNewline(s: string) returns (i: nat)
    requires '\n' in s
    ensures i < |s| && s[i] == '\n' && '\n' !in s[..i]
    decreases |s|
  {
    if s[0] == '\n' {
      i := 0;
    } else {
      assert s == [s[0]] + s[1..];
      var k := FirstNewline(s[1..]);
      i := k + 1;
      assert s[..i] == [s[0]] + s[1..][..k];
    }
  }

  lemma {:induction false} HandledAppends(parse: Parser, a: seq<string>, b: seq<string>)
    ensures Handled(parse, a + b) == Handled(parse, a) + Handled(parse, b)
  {
    if a == [] {
      assert a + b == b;
    } else {
      assert (a + b)[1..] == a[1..] + b;
      HandledAppends(parse, a[1..], b);
    }
  }

  predicate FitsAt(chunks: seq<seq<byte>>, k: nat)
    requires k < |chunks|
  {
    |Encode(Tail(DecodeEach(chunks[..k])) + DecodeLossy(chunks[k]))| <= MAXIMUM_PROTOCOL_LINE_BYTES
  }

  /** The buffer never overflows. */
  predicate WithinLimit(chunks: seq<seq<byte>>) {
    forall k | 0 <= k < |chunks| :: FitsAt(chunks, k)
  }

  /**
   * However the bytes are cut: the connection survives exactly when no chunk overflows the buffer; then the requests
   * are those of the complete lines of the text decoded so far, and the buffer is its newline-free tail. That text is
   * the text of the stream if and only if no chunk ends inside a character.
   */
  lemma {:induction false} FramingIsSplitting(parse: Parser, chunks: seq<seq<byte>>)
    ensures var l, text := ReceiveAll(parse, OPENED, chunks), DecodeEach(chunks);
      && (l.destroyed <==> !WithinLimit(chunks))
      && (!l.destroyed ==> l == Link(Tail(text), false, Handled(parse, Lines(text))))
      && '\n' !in Tail(text)
      && (text == DecodeLossy(Flatten(chunks)) <==> CutsBetweenCharacters(chunks))
  {
    DecodedInChunksIff(chunks);
    if chunks == [] {
      assert Tail("") == "" && Lines("") == [];
    } else {
      var front, last := chunks[..|chunks| - 1], DecodeLossy(chunks[|chunks| - 1]);
      var stream := DecodeEach(front);
      FramingIsSplitting(parse, front);
      LimitOfLast(chunks);
      SplitAppend(stream, last);
      assert stream + last == stream + last + "";
      SplitAppend(stream + last, "");
      HandledAppends(parse, Lines(stream), Lines(Tail(stream) + last));
      hide Encode, Split, WithinLimit, Handled, Lines, Tail, DecodeLossy, CutsBetweenCharacters;
    }
  }

  lemma LimitOfLast(chunks: seq<seq<byte>>)
    requires chunks != []
    ensures var front, last := chunks[..|chunks| - 1], DecodeLossy(chunks[|chunks| - 1]);
      WithinLimit(chunks)
      <==> WithinLimit(front) && |Encode(Tail(DecodeEach(front)) + last)| <= MAXIMUM_PROTOCOL_LINE_BYTES
  {
    hide Encode, Tail, DecodeEach, DecodeLossy;
    var front := chunks[..|chunks| - 1];
    forall k | 0 <= k < |front| ensures FitsAt(front, k) == FitsAt(chunks, k) {
      SameFit(front, chunks, k);
    }
    assert FitsAt(chunks, |front|)
      <==> |Encode(Tail(DecodeEach(front)) + DecodeLossy(chunks[|front|]))| <= MAXIMUM_PROTOCOL_LINE_BYTES;
    hide FitsAt;
  }

  lemma SameFit(a: seq<seq<byte>>, b: seq<seq<byte>>, k: nat)
    requires k < |a| <= |b| && a == b[..|a|]
    ensures FitsAt(a, k) == FitsAt(b, k)
  {
    assert a[..k] == b[..k] && a[k] == b[k];
  }

  // ----- the limit in bytes

  const NEWLINE: byte := 10

  /** The bytes after the last newline. */
  function Unfinished(bytes: seq<byte>): (line: seq<byte>)
    ensures |line| <= |bytes|
  {
    if bytes == [] || bytes[|bytes| - 1] == NEWLINE then []
    else Unfinished(bytes[..|bytes| - 1]) + [bytes[|bytes| - 1]]
  }

  predicate BytesFitAt(chunks: seq<seq<byte>>, k: nat)
    requires k < |chunks|
  {
    |Unfinished(Flatten(chunks[..k]))| + |chunks[k]| <= MAXIMUM_PROTOCOL_LINE_BYTES
  }

  /** The bytes of the unfinished line and of the next chunk never exceed the limit together. */
  predicate BytesWithinLimit(chunks: seq<seq<byte>>) {
    forall k | 0 <= k < |chunks| :: BytesFitAt(chunks, k)
  }

  lemma {:induction false} UnfinishedAfter(before: seq<byte>, line: seq<byte>)
    requires NEWLINE !in line && (before == [] || before[|before| - 1] == NEWLINE)
    ensures Unfinished(before + line) == line
    decreases |line|
  {
    if line == [] {
      assert before + line == before;
    } else {
      var front, last := line[..|line| - 1], line[|line| - 1];
      assert (before + line)[..|before + line| - 1] == before + front && (before + line)[|before + line| - 1] == last;
      assert last in line;
      UnfinishedAfter(before, front);
    }
  }

  /** What precedes the tail is nothing or ends in a newline. */
  lemma {:induction false} TailIsLast(s: string) returns (before: string)
    ensures s == before + Tail(s) && '\n' !in Tail(s)
    ensures before == [] || before[|before| - 1] == '\n'
    decreases |s|
  {
    if '\n' in s {
      var i := FirstNewline(s);
      var line, rest := s[..i], s[i + 1..];
      assert s == line + ['\n'] + rest;
      SplitOfJoined(line, '\n', rest);
      hide Split;
      var inner := TailIsLast(rest);
      assert Tail(s) == Tail(rest);
      before := line + ['\n'] + inner;
      assert s == before + Tail(rest);
    } else {
      SplitWithout(s, '\n');
      before := [];
    }
  }

  lemma UnfinishedOfEncoded(s: string)
    ensures Unfinished(Encode(s)) == Encode(Tail(s))
  {
    var before := TailIsLast(s);
    var tail := Tail(s);
    EncodeAppends(before, tail);
    EncodedAsciiByte(tail, NEWLINE);
    if before != [] {
      var front := before[..|before| - 1];
      assert before == front + ['\n'];
      EncodeAppends(front, ['\n']);
      assert Encode(['\n']) == [NEWLINE];
    }
    hide Encode, Tail, Unfinished;
    UnfinishedAfter(Encode(before), Encode(tail));
  }

  lemma {:induction false} CutsOfPrefix(chunks: seq<seq<byte>>, k: nat)
    requires CutsBetweenCharacters(chunks) && k <= |chunks|
    ensures CutsBetweenCharacters(chunks[..k])
    decreases |chunks|
  {
    hide CutsBetweenCharacters;
    if k == |chunks| {
      assert chunks[..k] == chunks;
    } else {
      CutsOfFront(chunks);
      CutsOfPrefix(chunks[..|chunks| - 1], k);
      assert chunks[..|chunks| - 1][..k] == chunks[..k];
    }
  }

  /** The chunks up to one that ends between characters are an encoded part of the text. */
  lemma PrefixIsEncoded(s: string, chunks: seq<seq<byte>>, k: nat)
    requires Flatten(chunks) == Encode(s) && CutsBetweenCharacters(chunks) && k <= |chunks|
    ensures Flatten(chunks[..k]) == Encode(DecodeEach(chunks[..k]))
  {
    var part := Flatten(chunks[..k]);
    CutsOfPrefix(chunks, k);
    DecodedInChunksIff(chunks[..k]);
    FlattenGrows(chunks, k);
    assert EndsAtBoundary(chunks, k);
    var i := BoundaryOfEncoded(s, |part|);
    assert part == Encode(s)[..|part|];
    DecodeLossyOfEncode(s[..i]);
  }

  lemma FitIsBytesFit(s: string, chunks: seq<seq<byte>>, k: nat)
    requires Flatten(chunks) == Encode(s) && CutsBetweenCharacters(chunks) && k < |chunks|
    ensures FitsAt(chunks, k) <==> BytesFitAt(chunks, k)
  {
    hide CutsBetweenCharacters, Encode, DecodeLossy, Unfinished, Tail;
    PrefixIsEncoded(s, chunks, k);
    PrefixIsEncoded(s, chunks, k + 1);
    var before, more := DecodeEach(chunks[..k]), DecodeLossy(chunks[k]);
    assert chunks[..k + 1][..k] == chunks[..k];
    FlattenSplits(chunks[..k + 1]);
    EncodeAppends(before, more);
    EqualAfterPrefix(Flatten(chunks[..k]), chunks[k], Encode(more));
    UnfinishedOfEncoded(before);
    EncodeAppends(Tail(before), more);
  }

  lemma EqualAfterPrefix(a: seq<byte>, b: seq<byte>, c: seq<byte>)
    requires a + b == a + c
    ensures b == c
  {
    assert (a + b)[|a|..] == b && (a + c)[|a|..] == c;
  }

  /**
   * A well formed stream whose chunks end between characters: the connection survives exactly when unfinished line and
   * next chunk fit together, in bytes, and it then is as if the whole text had come at once.
   */
  lemma CharacterCutsDoNotMatter(parse: Parser, s: string, chunks: seq<seq<byte>>)
    requires Flatten(chunks) == Encode(s) && CutsBetweenCharacters(chunks)
    ensures var l := ReceiveAll(parse, OPENED, chunks);
      if BytesWithinLimit(chunks) then l == Link(Tail(s), false, Handled(parse, Lines(s))) else l.destroyed
  {
    FramingIsSplitting(parse, chunks);
    DecodeLossyOfEncode(s);
    forall k | 0 <= k < |chunks| ensures FitsAt(chunks, k) <==> BytesFitAt(chunks, k) {
      FitIsBytesFit(s, chunks, k);
    }
    hide FitsAt, BytesFitAt, Encode, DecodeLossy, Flatten, DecodeEach, Handled, Lines, Tail, ReceiveAll,
      CutsBetweenCharacters;
  }

  /** U+00E9, which takes two bytes. */
  const E_ACUTE := "\U{E9}"

  lemma HalfCharacter()
    ensures Encode(E_ACUTE) == [0xC3, 0xA9]
    ensures DecodeLossy([0xC3]) == [REPLACEMENT] && |Encode([REPLACEMENT])| == 3
  {
  }

  lemma OneChunk(parse: Parser, chunk: seq<byte>)
    ensures ReceiveAll(parse, OPENED, [chunk]).destroyed <==> |Encode(DecodeLossy(chunk))| > MAXIMUM_PROTOCOL_LINE_BYTES
  {
    hide Encode, DecodeLossy, Handled, Lines, Tail;
    assert [chunk][..0] == [];
    assert ReceiveAll(parse, OPENED, []) == OPENED;
    assert "" + DecodeLossy(chunk) == DecodeLossy(chunk);
  }

  /** Once destroyed, a connection stays so. */
  lemma StaysDestroyed(parse: Parser, first: seq<byte>, second: seq<byte>)
    requires ReceiveAll(parse, OPENED, [first]).destroyed
    ensures ReceiveAll(parse, OPENED, [first, second]).destroyed
  {
    hide Encode, DecodeLossy, Handled, Lines, Tail;
    assert [first, second][..1] == [first];
  }

  /** A line that fits is lost when a chunk ends inside its last character: half a character counts as three bytes. */
  lemma SplitCharacterOverflows(parse: Parser)
    ensures var line := seq(MAXIMUM_PROTOCOL_LINE_BYTES - 2, _ => 'a');
      var chunks := [Encode(line) + [0xC3], [0xA9]];
      && Flatten(chunks) == Encode(line + E_ACUTE) && BytesWithinLimit(chunks)
      && ReceiveAll(parse, OPENED, chunks).destroyed
      && !ReceiveAll(parse, OPENED, [Flatten(chunks)]).destroyed
  {
    var line := seq(MAXIMUM_PROTOCOL_LINE_BYTES - 2, _ => 'a');
    var half: seq<byte> := [0xC3];
    var first, chunks := Encode(line) + half, [Encode(line) + half, [0xA9]];
    HalfCharacter();
    AsciiIsItsOwnEncoding(line);
    SplitLineFlattened(line);
    DecodeLossyOfEncode(line);
    DecodeLossyOfEncode(line + E_ACUTE);
    EncodedEndsAtBoundary(line, half);
    DecodeOfCut(Encode(line), half);
    EncodeAppends(line, [REPLACEMENT]);
    EncodeAppends(line, E_ACUTE);
    assert chunks[..0] == [] && Flatten(chunks[..0]) == [];
    assert chunks[..1] == [first] && Flatten([first]) == first + Flatten([first][1..]) == first;
    assert BytesFitAt(chunks, 0) && BytesFitAt(chunks, 1);
    hide Encode, DecodeLossy, Unfinished, IsBoundary;
    OneChunk(parse, first);
    StaysDestroyed(parse, first, [0xA9]);
    OneChunk(parse, Flatten(chunks));
  }

  lemma SplitLineFlattened(line: string)
    ensures Flatten([Encode(line) + [0xC3], [0xA9]]) == Encode(line + E_ACUTE)
  {
    HalfCharacter();
    EncodeAppends(line, E_ACUTE);
    hide Encode;
    var chunks: seq<seq<byte>> := [Encode(line) + [0xC3], [0xA9]];
    assert chunks[1..] == [[0xA9]] && chunks[1..][1..] == [];
    assert Flatten(chunks[1..]) == [0xA9];
    assert Encode(line) + [0xC3] + [0xA9] == Encode(line) + [0xC3, 0xA9];
  }

  // ----- requests arrive as they were sent

  /** `attachmentProcessorLine` */
  function PrintLine(r: Request, text: JsNumber -> string): string {
    Print(ToJson(r), text) + "\n"
  }

  function PrintStream(rs: seq<Request>, text: JsNumber -> string): string {
    if rs == [] then [] else PrintLine(rs[0], text) + PrintStream(rs[1..], text)
  }

  /** The parser undoes the printer on requests. */
  ghost predicate ParsesPrinted(parse: Parser, text: JsNumber -> string) {
    forall r | Valid(r) :: parse(Print(ToJson(r), text)) == Some(ToJson(r))
  }

  /** A number text for which the assumption about number printing holds. */
  function StrokeText(n: JsNumber): string {
    match n
    case Whole(k) => if k >= 0 then "+" + seq(k, _ => '0') else "-" + seq(-k, _ => '0')
    case Fraction(index) => "." + seq(index, _ => '0')
  }

  lemma SomeNumberTextExists()
    ensures IsNumberText(StrokeText)
  {
    forall m, n | StrokeText(m) == StrokeText(n) ensures m == n {
      assert StrokeText(m)[0] == StrokeText(n)[0] && |StrokeText(m)| == |StrokeText(n)|;
    }
    forall n ensures StrokeText(n) != [] && AllNumberCharacters(StrokeText(n)) {
    }
  }

  /** A reader of JSON is such a parser, and numbers printed injectively can be read. */
  lemma ReaderParsesPrinted(text: JsNumber -> string, number: string -> Option<JsNumber>)
    requires ReadsNumbers(number, text)
    ensures ParsesPrinted(line => ReadText(line, number), text)
  {
    hide ReadsNumbers, ReadText, Print, ToJson, Valid;
    forall r | Valid(r) ensures ReadText(Print(ToJson(r), text), number) == Some(ToJson(r)) {
      RequestIsJson(r);
      TextIsRead(ToJson(r), text, number);
    }
  }

  lemma SomeParserParsesPrinted(text: JsNumber -> string)
    requires IsNumberText(text)
    ensures exists parse: Parser :: ParsesPrinted(parse, text)
  {
    hide IsNumberText, ReadsNumbers, ParsesPrinted;
    var number := NumbersCanBeRead(text);
    ReaderParsesPrinted(text, number);
  }

  lemma RequestIsJson(r: Request)
    ensures IsJson(ToJson(r))
  {
  }

  // ----- the characters of printed JSON

  /** What JSON writes of its own: no control character, nothing above U+007F. */
  predicate IsPlain(c: char) {
    0x20 <= c as int < 0x80
  }

  /** A key or a text of the value has this character. */
  ghost predicate Mentions(v: Json, c: char)
    decreases v
  {
    match v
    case Text(s) => c in s
    case List(items) => exists i | 0 <= i < |items| :: Mentions(items[i], c)
    case Object(members) => exists i | 0 <= i < |members| :: c in members[i].key || Mentions(members[i].value, c)
    case _ => false
  }

  lemma EscapedCharacter(c: char, d: char)
    requires d in Escape(c)
    ensures IsPlain(d) || (d == c && c as int >= 0x80)
  {
  }

  lemma {:induction false} StringTailCharacter(s: string, c: char)
    requires c in StringTail(s)
    ensures IsPlain(c) || (c in s && c as int >= 0x80)
  {
    if s != [] {
      hide Escape;
      if c in Escape(s[0]) {
        EscapedCharacter(s[0], c);
      } else {
        StringTailCharacter(s[1..], c);
      }
    }
  }

  lemma QuoteCharacter(s: string, c: char)
    requires c in Quote(s)
    ensures IsPlain(c) || (c in s && c as int >= 0x80)
  {
    if c in StringTail(s) {
      StringTailCharacter(s, c);
    }
  }

  /** Every character of printed JSON is plain, or above U+007F and mentioned by the value. */
  lemma {:induction false} PrintedCharacter(v: Json, text: JsNumber -> string, c: char)
    requires IsNumberText(text) && c in Print(v, text)
    ensures IsPlain(c) || (Mentions(v, c) && c as int >= 0x80)
    decreases v
  {
    hide Quote;
    match v
    case Text(s) => QuoteCharacter(s, c);
    case Number(n) => assert AllNumberCharacters(text(n));
    case List(items) =>
      if items != [] {
        if c in Print(items[0], text) {
          PrintedCharacter(items[0], text, c);
        } else if c in PrintItemsTail(items[1..], text) {
          ItemsCharacter(items[1..], text, c);
          MentionedLater(items, c);
        }
      }
    case Object(members) =>
      if members != [] {
        if c in PrintMember(members[0], text) {
          MemberCharacter(members[0], text, c);
        } else if c in PrintMembersTail(members[1..], text) {
          MembersCharacter(members[1..], text, c);
          MemberMentionedLater(members, c);
        }
      }
    case _ =>
  }

  lemma MentionedLater(items: seq<Json>, c: char)
    requires items != []
    ensures Mentions(List(items[1..]), c) ==> Mentions(List(items), c)
  {
    if i :| 0 <= i < |items[1..]| && Mentions(items[1..][i], c) {
      assert Mentions(items[i + 1], c);
    }
  }

  lemma MemberMentionedLater(members: seq<Member<JsNumber>>, c: char)
    requires members != []
    ensures Mentions(Object(members[1..]), c) ==> Mentions(Object(members), c)
  {
    if i :| 0 <= i < |members[1..]| && (c in members[1..][i].key || Mentions(members[1..][i].value, c)) {
      assert members[i + 1] == members[1..][i];
    }
  }

  lemma MemberCharacter(m: Member<JsNumber>, text: JsNumber -> string, c: char)
    requires IsNumberText(text) && c in PrintMember(m, text)
    ensures IsPlain(c) || ((c in m.key || Mentions(m.value, c)) && c as int >= 0x80)
    decreases m
  {
    if c in Quote(m.key) {
      QuoteCharacter(m.key, c);
    } else if c in Print(m.value, text) {
      PrintedCharacter(m.value, text, c);
    }
  }

  lemma {:induction false} ItemsCharacter(items: seq<Json>, text: JsNumber -> string, c: char)
    requires IsNumberText(text) && c in PrintItemsTail(items, text)
    ensures IsPlain(c) || (Mentions(List(items), c) && c as int >= 0x80)
    decreases items
  {
    if items != [] {
      if c in Print(items[0], text) {
        PrintedCharacter(items[0], text, c);
      } else if c in PrintItemsTail(items[1..], text) {
        ItemsCharacter(items[1..], text, c);
        MentionedLater(items, c);
      }
    }
  }

  lemma {:induction false} MembersCharacter(members: seq<Member<JsNumber>>, text: JsNumber -> string, c: char)
    requires IsNumberText(text) && c in PrintMembersTail(members, text)
    ensures IsPlain(c) || (Mentions(Object(members), c) && c as int >= 0x80)
    decreases members
  {
    if members != [] {
      if c in PrintMember(members[0], text) {
        MemberCharacter(members[0], text, c);
      } else if c in PrintMembersTail(members[1..], text) {
        MembersCharacter(members[1..], text, c);
        MemberMentionedLater(members, c);
      }
    }
  }

  /** Printed JSON is one line, whatever the texts in it. */
  lemma PrintNewlineFree(v: Json, text: JsNumber -> string)
    requires IsNumberText(text)
    ensures '\n' !in Print(v, text)
  {
    if '\n' in Print(v, text) {
      PrintedCharacter(v, text, '\n');
    }
  }

  lemma FirstKeysAreAscii()
    ensures IsAscii("timeoutMs") && IsAscii("maximumMemoryBytes") && IsAscii("maximumInputBytes")
    ensures IsAscii("maximumOutputBytes") && IsAscii("maximumFiles")
  {
  }

  lemma OtherKeysAreAscii()
    ensures IsAscii("maximumExpandedBytes") && IsAscii("maximumExtractedFileBytes")
    ensures IsAscii("maximumArchiveDepth") && IsAscii("maximumCompressionRatio")
  {
  }

  lemma QuotaKeysAreAscii()
    ensures forall i | 0 <= i < 9 :: IsAscii(QUOTA_KEYS[i])
  {
    FirstKeysAreAscii();
    OtherKeysAreAscii();
    hide IsAscii;
  }

  lemma UuidIsAscii(id: string)
    requires IsUuid(id)
    ensures IsAscii(id)
  {
    forall i | 0 <= i < 36 ensures id[i] as int < 0x80 {
      assert i in {8, 13, 18, 23} || IsHex(id[i]);
    }
  }

  lemma QuotasMentionAscii(q: Quotas, c: char)
    requires Mentions(Object(QuotaMembers(q)), c)
    ensures c as int < 0x80
  {
    QuotaKeysAreAscii();
    var members := QuotaMembers(q);
    var i :| 0 <= i < |members| && (c in members[i].key || Mentions(members[i].value, c));
    assert members[i] == Member(QUOTA_KEYS[i], Number(Whole(q[i])));
    assert IsAscii(QUOTA_KEYS[i]);
  }

  lemma NamesAreAscii()
    ensures IsAscii("kind") && IsAscii("jobId") && IsAscii("processor") && IsAscii("quotas")
    ensures IsAscii("cancel") && IsAscii("execute") && IsAscii("text") && IsAscii("zip")
  {
  }

  predicate IsAsciiText(m: Member<JsNumber>) {
    m.value.Text? && (forall i | 0 <= i < |m.key| :: m.key[i] as int < 0x80)
    && forall i | 0 <= i < |m.value.s| :: m.value.s[i] as int < 0x80
  }

  lemma RequestTexts(r: Request)
    requires Valid(r)
    ensures forall i | 0 <= i < |RequestMembers(r)| && i != 3 :: IsAsciiText(RequestMembers(r)[i])
    ensures r.Execute? ==> IsAscii(RequestMembers(r)[3].key)
  {
    UuidIsAscii(r.jobId);
    NamesAreAscii();
    hide IsUuid;
  }

  lemma RequestMentionsAscii(r: Request, c: char)
    requires Valid(r) && Mentions(ToJson(r), c)
    ensures c as int < 0x80
  {
    RequestTexts(r);
    var members := RequestMembers(r);
    var i :| 0 <= i < |members| && (c in members[i].key || Mentions(members[i].value, c));
    if i == 3 {
      assert members[3].value == Object(QuotaMembers(r.quotas));
      hide RequestMembers, QuotaMembers, Valid, Mentions;
      if Mentions(members[3].value, c) {
        QuotasMentionAscii(r.quotas, c);
      }
    } else {
      hide RequestMembers, Valid;
      assert IsAsciiText(members[i]);
    }
  }

  /** Valid requests print to ASCII. */
  lemma {:induction false} StreamIsAscii(rs: seq<Request>, text: JsNumber -> string)
    requires IsNumberText(text) && forall i | 0 <= i < |rs| :: Valid(rs[i])
    ensures IsAscii(PrintStream(rs, text))
  {
    if rs != [] {
      hide Print, ToJson, Valid, Mentions;
      StreamIsAscii(rs[1..], text);
      var line := Print(ToJson(rs[0]), text);
      forall i | 0 <= i < |line| ensures line[i] as int < 0x80 {
        PrintedCharacter(ToJson(rs[0]), text, line[i]);
        if Mentions(ToJson(rs[0]), line[i]) {
          RequestMentionsAscii(rs[0], line[i]);
        }
      }
    }
  }

  lemma RequestParses(r: Request)
    requires Valid(r)
    ensures ParseRequest(ToJson(r)) == Some(r)
  {
    RequestIsItself(r);
    RequestsExactly(ToJson(r), r);
  }

  lemma RequestIsItself(r: Request)
    ensures HasDistinctKeys(ToJson(r)) && SameValue(ToJson(r), ToJson(r))
  {
    RequestMembersMeaning(r);
    if r.Execute? {
      QuotaMembersMeaning(r.quotas);
      var quotas := QuotaMembers(r.quotas);
      assert HasDistinctKeys<JsNumber>(Object(quotas));
      assert forall i, j | 0 <= i < |quotas| && 0 <= j < |quotas| && quotas[i].key == quotas[j].key :: i == j;
      assert SameValue<JsNumber>(Object(quotas), Object(quotas));
    }
    var members := RequestMembers(r);
    assert forall i, j | 0 <= i < |members| && 0 <= j < |members| && members[i].key == members[j].key :: i == j;
    hide QuotaMembers;
  }

  lemma {:induction false} StreamIsHandled(parse: Parser, text: JsNumber -> string, rs: seq<Request>)
    requires IsNumberText(text) && ParsesPrinted(parse, text) && forall i | 0 <= i < |rs| :: Valid(rs[i])
    ensures Handled(parse, Lines(PrintStream(rs, text))) == rs && Tail(PrintStream(rs, text)) == ""
  {
    if rs != [] {
      var line, rest := Print(ToJson(rs[0]), text), PrintStream(rs[1..], text);
      StreamIsHandled(parse, text, rs[1..]);
      PrintNewlineFree(ToJson(rs[0]), text);
      assert PrintStream(rs, text) == line + ['\n'] + rest;
      LineTaken(parse, line, rest);
      RequestParses(rs[0]);
      hide Print, ToJson, Lines, Tail, PrintStream, Valid;
      assert HandledLine(parse, line) == [rs[0]];
      assert rs == [rs[0]] + rs[1..];
    }
  }

  lemma AsciiCuts(s: string, chunks: seq<seq<byte>>)
    requires IsAscii(s) && Flatten(chunks) == Encode(s)
    ensures CutsBetweenCharacters(chunks)
  {
    forall k | 0 <= k <= |chunks| ensures EndsAtBoundary(chunks, k) {
      FlattenGrows(chunks, k);
      AsciiBoundaries(s, |Flatten(chunks[..k])|);
    }
  }

  /**
   * Any valid requests, printed and cut into any chunks of bytes, are handled as exactly those, if and only if no
   * chunk together with the unfinished line before it exceeds 16 KiB.
   */
  lemma RequestsArrive(parse: Parser, text: JsNumber -> string, rs: seq<Request>, chunks: seq<seq<byte>>)
    requires IsNumberText(text) && ParsesPrinted(parse, text) && forall i | 0 <= i < |rs| :: Valid(rs[i])
    requires Flatten(chunks) == Encode(PrintStream(rs, text))
    ensures ReceiveAll(parse, OPENED, chunks) == Link("", false, rs) <==> BytesWithinLimit(chunks)
  {
    hide Valid, ParsesPrinted, BytesWithinLimit, Handled, Lines, Tail, ReceiveAll, Flatten, Encode;
    StreamIsAscii(rs, text);
    AsciiCuts(PrintStream(rs, text), chunks);
    CharacterCutsDoNotMatter(parse, PrintStream(rs, text), chunks);
    StreamIsHandled(parse, text, rs);
  }
}
