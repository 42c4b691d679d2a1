/** Lists of byte chunks: joining them, and taking bytes from their front. */
module ByteChunks {
  import opened Wrappers
  import opened Utf8

  function Flatten(chunks: seq<seq<byte>>): seq<byte> {
    if chunks == [] then [] else chunks[0] + Flatten(chunks[1..])
  }

  lemma {:induction false} FlattenAppend(chunks: seq<seq<byte>>, chunk: seq<byte>)
    ensures Flatten(chunks + [chunk]) == Flatten(chunks) + chunk
  {
    if chunks == [] {
      assert [] + [chunk] == [chunk];
      assert [chunk][1..] == [];
    } else {
      FlattenAppend(chunks[1..], chunk);
      assert (chunks + [chunk])[1..] == chunks[1..] + [chunk];
    }
  }

  /** `join`: one buffer with all chunks, filled front to back. */
  method Join(chunks: seq<seq<byte>>) returns (result: seq<byte>)
    ensures result == Flatten(chunks)
  {
    result := [];
    var index := 0;
    while index < |chunks|
      invariant 0 <= index <= |chunks|
      invariant result + Flatten(chunks[index..]) == Flatten(chunks)
    {
      assert chunks[index..][1..] == chunks[index + 1..];
      result := result + chunks[index];
      index := index + 1;
    }
    assert chunks[index..] == [];
  }

  /** The first `length` bytes of the chunks and the chunks that are left; `None` when there are too few. */
  function Take(chunks: seq<seq<byte>>, length: nat): (r: Option<(seq<byte>, seq<seq<byte>>)>)
    ensures r.Some? <==> length <= |Flatten(chunks)|
    ensures r.Some? ==> r.value.0 == Flatten(chunks)[..length] && Flatten(r.value.1) == Flatten(chunks)[length..]
    decreases |chunks|
  {
    if length == 0 then Some(([], chunks))
    else if chunks == [] then None
    else if |chunks[0]| <= length then
      Rejoined(chunks[0], Take(chunks[1..], length - |chunks[0]|))
    else
      var rest := [chunks[0][length..]] + chunks[1..];
      assert rest[1..] == chunks[1..];
      Some((chunks[0][..length], rest))
  }

  /** `takeBytes`, which shifts whole chunks off the list and shortens the first one that is left. */
  method TakeBytes(chunks: seq<seq<byte>>, length: nat) returns (result: Option<seq<byte>>, rest: seq<seq<byte>>)
    ensures result.Some? <==> length <= |Flatten(chunks)|
    ensures result.Some? ==> Take(chunks, length) == Some((result.value, rest))
  {
    rest := chunks;
    var taken: seq<byte> := [];
    RejoinedNothing(Take(chunks, length));
    while |taken| < length
      invariant |taken| <= length
      invariant Rejoined(taken, Take(rest, length - |taken|)) == Take(chunks, length)
      decreases length - |taken|, |rest|
    {
      if rest == [] {
        return None, rest;
      }
      var current := rest[0];
      var remaining := length - |taken|;
      if |current| <= remaining {
        RejoinedTwice(taken, current, Take(rest[1..], remaining - |current|));
        taken := taken + current;
        rest := rest[1..];
      } else {
        RejoinedTwice(taken, current[..remaining], Some(([], [current[remaining..]] + rest[1..])));
        assert current[..remaining] + [] == current[..remaining];
        taken := taken + current[..remaining];
        rest := [current[remaining..]] + rest[1..];
      }
    }
    assert taken + [] == taken;
    return Some(taken), rest;
  }

  function Rejoined(taken: seq<byte>, r: Option<(seq<byte>, seq<seq<byte>>)>): Option<(seq<byte>, seq<seq<byte>>)> {
    match r
    case Some((bytes, rest)) => Some((taken + bytes, rest))
    case None => None
  }

  lemma RejoinedNothing(r: Option<(seq<byte>, seq<seq<byte>>)>)
    ensures Rejoined([], r) == r
  {
    if r.Some? {
      assert [] + r.value.0 == r.value.0;
    }
  }

  lemma RejoinedTwice(a: seq<byte>, b: seq<byte>, r: Option<(seq<byte>, seq<seq<byte>>)>)
    ensures Rejoined(a, Rejoined(b, r)) == Rejoined(a + b, r)
  {
    if r.Some? {
      assert a + (b + r.value.0) == a + b + r.value.0;
    }
  }
}
