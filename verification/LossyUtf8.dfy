/** UTF-8 as `Buffer.toString("utf8")` reads it, with replacement characters, and what happens to it in chunks. */
module LossyUtf8 {
  import opened ByteChunks
  import opened Utf8

  const REPLACEMENT: char := '\U{FFFD}'

  /** The second byte may follow this first one in some character. */
  predicate SecondFits(first: int, second: int) {
    if first == 0xE0 then 0xA0 <= second < 0xC0
    else if first == 0xED then 0x80 <= second < 0xA0
    else if first == 0xF0 then 0x90 <= second < 0xC0
    else if first == 0xF4 then 0x80 <= second < 0x90
    else 0x80 <= second < 0xC0
  }

  /** How many bytes one replacement stands for: the longest start of a character, and at least one byte. */
  function BrokenLength(bytes: seq<byte>): (n: nat)
    requires bytes != [] && DecodeChar(bytes).None?
    ensures 1 <= n <= |bytes| && n <= 3
  {
    if |bytes| == 1 || !(0xC2 <= bytes[0] < 0xF5) || !SecondFits(bytes[0], bytes[1]) then 1
    else if bytes[0] < 0xF0 || !IsContinuation(bytes, 2) then 2
    else 3
  }

  function NextChar(bytes: seq<byte>): (r: (char, nat))
    requires bytes != []
    ensures 1 <= r.1 <= |bytes| && r.1 <= 4
  {
    match DecodeChar(bytes)
    case Some(found) => found
    case None => (REPLACEMENT, BrokenLength(bytes))
  }

  function DecodeLossy(bytes: seq<byte>): string {
    if bytes == [] then []
    else
      var (c, n) := NextChar(bytes);
      [c] + DecodeLossy(bytes[n..])
  }

  /** Position `k` lies between two characters, or between characters and what is replaced. */
  predicate IsBoundary(bytes: seq<byte>, k: nat)
    ensures IsBoundary(bytes, k) ==> k <= |bytes|
    decreases k
  {
    k == 0
    || (bytes != []
        && var n := NextChar(bytes).1;
           n <= k && IsBoundary(bytes[n..], k - n))
  }

  // ----- what is replaced

  /** These bytes begin a character without completing it. */
  ghost predicate BeginsCharacter(bytes: seq<byte>) {
    exists c: char :: bytes < EncodeChar(c)
  }

  /** One byte, or more when more begin a character; and no more begin one. */
  ghost predicate IsMaximalStart(bytes: seq<byte>, n: nat) {
    && 1 <= n <= |bytes|
    && (n > 1 ==> BeginsCharacter(bytes[..n]))
    && forall k | n < k <= |bytes| :: !BeginsCharacter(bytes[..k])
  }

  lemma EncodedBytes(c: char)
    ensures var e := EncodeChar(c);
      && (|e| > 1 ==> 0xC2 <= e[0] < 0xF5 && SecondFits(e[0], e[1]))
      && (|e| > 2 ==> e[0] >= 0xE0 && IsContinuation(e, 2))
      && (|e| > 3 ==> e[0] >= 0xF0)
  {
  }

  /** The start of a character can be completed. */
  lemma CompletedStart(bytes: seq<byte>, n: nat) returns (c: char)
    requires 2 <= n <= 3 && n <= |bytes|
    requires 0xE0 <= bytes[0] < 0xF5 && SecondFits(bytes[0], bytes[1])
    requires n == 3 ==> bytes[0] >= 0xF0 && IsContinuation(bytes, 2)
    ensures bytes[..n] < EncodeChar(c)
  {
    var padded := bytes[..n] + [0x80, 0x80];
    assert padded[0] == bytes[0] && padded[1] == bytes[1] && (n == 3 ==> padded[2] == bytes[2]);
    assert IsContinuation(padded, 1) && IsContinuation(padded, 2) && IsContinuation(padded, 3);
    DecodedCharIsEncoded(padded);
    c := DecodeChar(padded).value.0;
    assert bytes[..n] == padded[..n];
  }

  lemma BrokenIsMaximal(bytes: seq<byte>)
    requires bytes != [] && DecodeChar(bytes).None?
    ensures IsMaximalStart(bytes, BrokenLength(bytes))
  {
    var n := BrokenLength(bytes);
    if n > 1 {
      var c := CompletedStart(bytes, n);
    }
    forall k, c: char | n < k <= |bytes| && bytes[..k] < EncodeChar(c) ensures false {
      LongerStart(bytes, k, c);
    }
  }

  lemma LongerStart(bytes: seq<byte>, k: nat, c: char)
    requires 1 < k <= |bytes| && bytes[..k] < EncodeChar(c)
    requires DecodeChar(bytes).None?
    ensures k <= BrokenLength(bytes)
  {
    var e := EncodeChar(c);
    EncodedBytes(c);
    assert e[0] == bytes[..k][0] && e[1] == bytes[..k][1];
    assert k > 2 ==> e[2] == bytes[..k][2];
  }

  /**
   * A character at the front is decoded; where there is none, one replacement stands for the longest start of one that
   * the bytes begin with, or for a single byte.
   */
  lemma ReplacedAreMaximalStarts(bytes: seq<byte>) returns (n: nat)
    requires bytes != []
    ensures n <= |bytes|
    ensures if exists c: char :: EncodeChar(c) <= bytes
      then exists c: char :: EncodeChar(c) == bytes[..n] && DecodeLossy(bytes) == [c] + DecodeLossy(bytes[n..])
      else IsMaximalStart(bytes, n) && DecodeLossy(bytes) == [REPLACEMENT] + DecodeLossy(bytes[n..])
  {
    n := NextChar(bytes).1;
    FirstDecoded(bytes);
    if DecodeChar(bytes).Some? {
      DecodedCharIsEncoded(bytes);
    } else {
      BrokenIsMaximal(bytes);
      hide EncodeChar, DecodeChar, DecodeLossy;
      forall c: char ensures !(EncodeChar(c) <= bytes) {
        NoCharacter(bytes, c);
      }
    }
  }

  lemma NoCharacter(bytes: seq<byte>, c: char)
    requires bytes != [] && DecodeChar(bytes).None?
    ensures !(EncodeChar(c) <= bytes)
  {
    if EncodeChar(c) <= bytes {
      var n := |EncodeChar(c)|;
      assert bytes == EncodeChar(c) + bytes[n..];
      DecodeCharOfEncodeChar(c, bytes[n..]);
    }
  }

  // ----- cutting a stream in two

  /** What follows a complete character does not matter to it. */
  lemma NextCharIsLocal(a: seq<byte>, b: seq<byte>)
    requires a != [] && NextChar(a + b).1 <= |a|
    ensures NextChar(a) == NextChar(a + b)
  {
    var s := a + b;
    assert s[0] == a[0];
    assert |a| > 1 ==> s[1] == a[1];
    assert |a| > 2 ==> s[2] == a[2];
    assert |a| > 3 ==> s[3] == a[3];
  }

  /** The start of a character is replaced as a whole, and continuation bytes are what it lacks. */
  lemma CutCharacter(a: seq<byte>, b: seq<byte>)
    requires a != [] && NextChar(a + b).1 > |a|
    ensures NextChar(a) == (REPLACEMENT, |a|)
    ensures forall i | 0 <= i < NextChar(a + b).1 - |a| :: IsContinuation(b, i)
  {
    var s, n := a + b, NextChar(a + b).1;
    assert s[0] == a[0];
    assert |a| > 1 ==> s[1] == a[1];
    assert |a| > 2 ==> s[2] == a[2];
    forall i | 0 <= i < n - |a| ensures IsContinuation(b, i) {
      assert s[|a| + i] == b[i];
    }
  }

  lemma {:induction false} ContinuationsAreReplaced(b: seq<byte>, m: nat)
    requires forall i | 0 <= i < m :: IsContinuation(b, i)
    ensures m <= |b| && |DecodeLossy(b)| == m + |DecodeLossy(b[m..])|
  {
    if m == 0 {
      assert b[0..] == b;
    } else {
      assert IsContinuation(b, 0) && NextChar(b) == (REPLACEMENT, 1);
      forall i | 0 <= i < m - 1 ensures IsContinuation(b[1..], i) {
        assert IsContinuation(b, i + 1);
      }
      ContinuationsAreReplaced(b[1..], m - 1);
      assert b[1..][m - 1..] == b[m..];
    }
  }

  lemma FirstDecoded(bytes: seq<byte>)
    requires bytes != []
    ensures DecodeLossy(bytes) == [NextChar(bytes).0] + DecodeLossy(bytes[NextChar(bytes).1..])
  {
    hide NextChar;
  }

  lemma BoundaryAfterFirst(bytes: seq<byte>, k: nat)
    requires bytes != [] && k > 0
    ensures var n := NextChar(bytes).1;
      IsBoundary(bytes, k) <==> n <= k && IsBoundary(bytes[n..], k - n)
  {
    hide NextChar;
  }

  lemma DropOfAppend(a: seq<byte>, b: seq<byte>, n: nat)
    requires n <= |a|
    ensures (a + b)[n..] == a[n..] + b
  {
  }

  lemma CutBehindFirst(a: seq<byte>, b: seq<byte>, rest: seq<byte>)
    requires a != [] && NextChar(a + b).1 <= |a| && rest == a[NextChar(a + b).1..]
    ensures DecodeLossy(a) == [NextChar(a + b).0] + DecodeLossy(rest)
    ensures DecodeLossy(a + b) == [NextChar(a + b).0] + DecodeLossy(rest + b)
    ensures IsBoundary(a + b, |a|) <==> IsBoundary(rest + b, |rest|)
  {
    hide NextChar, DecodeLossy, IsBoundary;
    NextCharIsLocal(a, b);
    DropOfAppend(a, b, NextChar(a + b).1);
    FirstDecoded(a);
    FirstDecoded(a + b);
    BoundaryAfterFirst(a + b, |a|);
  }

  lemma CutInsideFirst(a: seq<byte>, b: seq<byte>)
    requires a != [] && NextChar(a + b).1 > |a|
    ensures !IsBoundary(a + b, |a|)
    ensures |DecodeLossy(a)| + |DecodeLossy(b)| > |DecodeLossy(a + b)|
  {
    var n := NextChar(a + b).1;
    FirstDecoded(a);
    FirstDecoded(a + b);
    BoundaryAfterFirst(a + b, |a|);
    CutCharacter(a, b);
    ContinuationsAreReplaced(b, n - |a|);
    hide NextChar, DecodeLossy, IsBoundary, IsContinuation;
    assert (a + b)[n..] == b[n - |a|..];
  }

  lemma Regrouped(a: string, b: string, c: string)
    ensures a + b + c == a + (b + c)
  {
  }

  /** Decoding two pieces apart is decoding them together exactly at a boundary; elsewhere it yields more characters. */
  lemma {:induction false} DecodeOfCut(a: seq<byte>, b: seq<byte>)
    ensures IsBoundary(a + b, |a|) ==> DecodeLossy(a) + DecodeLossy(b) == DecodeLossy(a + b)
    ensures !IsBoundary(a + b, |a|) ==> |DecodeLossy(a)| + |DecodeLossy(b)| > |DecodeLossy(a + b)|
    decreases |a|
  {
    if a == [] {
      assert a + b == b;
    } else {
      hide NextChar, DecodeLossy, IsBoundary;
      var (c, n) := NextChar(a + b);
      if n <= |a| {
        var rest := a[n..];
        CutBehindFirst(a, b, rest);
        DecodeOfCut(rest, b);
        Regrouped([c], DecodeLossy(rest), DecodeLossy(b));
      } else {
        CutInsideFirst(a, b);
      }
    }
  }

  /** Up to a boundary, boundaries do not depend on what follows. */
  lemma {:induction false} BoundaryOfFront(a: seq<byte>, b: seq<byte>, k: nat)
    requires k <= |a| && IsBoundary(a + b, |a|)
    ensures IsBoundary(a, k) <==> IsBoundary(a + b, k)
    decreases k
  {
    if k > 0 {
      hide NextChar, IsBoundary;
      var n := NextChar(a + b).1;
      BoundaryAfterFirst(a + b, |a|);
      BoundaryAfterFirst(a + b, k);
      NextCharIsLocal(a, b);
      BoundaryAfterFirst(a, k);
      DropOfAppend(a, b, n);
      if n <= k {
        BoundaryOfFront(a[n..], b, k - n);
      }
    }
  }

  lemma {:induction false} EndIsBoundary(bytes: seq<byte>)
    ensures IsBoundary(bytes, |bytes|)
    decreases |bytes|
  {
    if bytes != [] {
      EndIsBoundary(bytes[NextChar(bytes).1..]);
    }
  }

  // ----- cutting a stream into chunks

  /** Every chunk decoded by itself. */
  function DecodeEach(chunks: seq<seq<byte>>): string {
    if chunks == [] then [] else DecodeEach(chunks[..|chunks| - 1]) + DecodeLossy(chunks[|chunks| - 1])
  }

  predicate EndsAtBoundary(chunks: seq<seq<byte>>, k: nat)
    requires k <= |chunks|
  {
    IsBoundary(Flatten(chunks), |Flatten(chunks[..k])|)
  }

  /** No chunk ends inside a character. */
  predicate CutsBetweenCharacters(chunks: seq<seq<byte>>) {
    forall k | 0 <= k <= |chunks| :: EndsAtBoundary(chunks, k)
  }

  lemma FlattenSplits(chunks: seq<seq<byte>>)
    requires chunks != []
    ensures Flatten(chunks) == Flatten(chunks[..|chunks| - 1]) + chunks[|chunks| - 1]
  {
    FlattenAppend(chunks[..|chunks| - 1], chunks[|chunks| - 1]);
    assert chunks == chunks[..|chunks| - 1] + [chunks[|chunks| - 1]];
  }

  lemma {:induction false} FlattenGrows(chunks: seq<seq<byte>>, k: nat)
    requires k <= |chunks|
    ensures Flatten(chunks[..k]) <= Flatten(chunks)
    decreases |chunks|
  {
    if k == |chunks| {
      assert chunks[..k] == chunks;
    } else {
      FlattenSplits(chunks);
      FlattenGrows(chunks[..|chunks| - 1], k);
      assert chunks[..|chunks| - 1][..k] == chunks[..k];
    }
  }

  lemma CutsOfFront(chunks: seq<seq<byte>>)
    requires chunks != []
    ensures var front := chunks[..|chunks| - 1];
      CutsBetweenCharacters(chunks)
      <==> IsBoundary(Flatten(chunks), |Flatten(front)|) && CutsBetweenCharacters(front)
  {
    var front, last := chunks[..|chunks| - 1], chunks[|chunks| - 1];
    FlattenSplits(chunks);
    EndIsBoundary(Flatten(chunks));
    assert chunks[..|chunks|] == chunks;
    assert EndsAtBoundary(chunks, |chunks|);
    assert EndsAtBoundary(chunks, |front|) <==> IsBoundary(Flatten(chunks), |Flatten(front)|);
    hide Flatten, IsBoundary;
    if IsBoundary(Flatten(chunks), |Flatten(front)|) {
      forall k | 0 <= k <= |front| ensures EndsAtBoundary(front, k) <==> EndsAtBoundary(chunks, k) {
        assert front[..k] == chunks[..k];
        FlattenGrows(front, k);
        BoundaryOfFront(Flatten(front), last, |Flatten(front[..k])|);
      }
    }
  }

  /** Chunks decoded one by one give the decoded stream if and only if no chunk ends inside a character. */
  lemma {:induction false} DecodedInChunksIff(chunks: seq<seq<byte>>)
    ensures DecodeEach(chunks) == DecodeLossy(Flatten(chunks)) <==> CutsBetweenCharacters(chunks)
    ensures |DecodeEach(chunks)| >= |DecodeLossy(Flatten(chunks))|
  {
    if chunks == [] {
      assert EndsAtBoundary(chunks, 0);
    } else {
      var front, last := chunks[..|chunks| - 1], chunks[|chunks| - 1];
      DecodedInChunksIff(front);
      FlattenSplits(chunks);
      CutsOfFront(chunks);
      DecodeOfCut(Flatten(front), last);
      hide Flatten, IsBoundary, CutsBetweenCharacters, DecodeLossy;
      var a, b := DecodeEach(front), DecodeLossy(Flatten(front));
      assert |a| == |b| ==> (a + DecodeLossy(last))[..|a|] == a && (b + DecodeLossy(last))[..|a|] == b;
      assert |a + DecodeLossy(last)| == |a| + |DecodeLossy(last)|;
    }
  }

  // ----- well formed streams

  lemma {:induction false} DecodeLossyOfEncode(s: string)
    ensures DecodeLossy(Encode(s)) == s
  {
    if s != [] {
      var head := EncodeChar(s[0]);
      DecodeCharOfEncodeChar(s[0], Encode(s[1..]));
      assert (head + Encode(s[1..]))[|head|..] == Encode(s[1..]);
      DecodeLossyOfEncode(s[1..]);
      assert s == [s[0]] + s[1..];
    }
  }

  /** Up to a boundary, a well formed stream is well formed. */
  lemma {:induction false} BoundaryOfEncoded(s: string, k: nat) returns (i: nat)
    requires IsBoundary(Encode(s), k)
    ensures i <= |s| && Encode(s)[..k] == Encode(s[..i])
    decreases k
  {
    if k == 0 {
      i := 0;
    } else {
      var head, rest := EncodeChar(s[0]), Encode(s[1..]);
      DecodeCharOfEncodeChar(s[0], rest);
      assert (head + rest)[|head|..] == rest;
      var j := BoundaryOfEncoded(s[1..], k - |head|);
      i := j + 1;
      assert s[..i][1..] == s[1..][..j] && s[..i][0] == s[0];
      assert Encode(s)[..k] == head + rest[..k - |head|];
    }
  }

  lemma {:induction false} EncodedEndsAtBoundary(s: string, rest: seq<byte>)
    ensures IsBoundary(Encode(s) + rest, |Encode(s)|)
    decreases |s|
  {
    if s != [] {
      var head, tail := EncodeChar(s[0]), Encode(s[1..]);
      DecodeCharOfEncodeChar(s[0], tail + rest);
      assert Encode(s) + rest == head + (tail + rest);
      DropOfAppend(head, tail + rest, |head|);
      BoundaryAfterFirst(head + (tail + rest), |Encode(s)|);
      EncodedEndsAtBoundary(s[1..], rest);
      assert head[|head|..] + (tail + rest) == tail + rest;
    }
  }

  /** Below U+0080 every position is a boundary. */
  lemma {:induction false} AsciiBoundaries(s: string, k: nat)
    requires IsAscii(s) && k <= |Encode(s)|
    ensures IsBoundary(Encode(s), k)
    decreases k
  {
    if k > 0 {
      var head, rest := EncodeChar(s[0]), Encode(s[1..]);
      DecodeCharOfEncodeChar(s[0], rest);
      assert |head| == 1 && (head + rest)[1..] == rest;
      AsciiBoundaries(s[1..], k - 1);
    }
  }
}
