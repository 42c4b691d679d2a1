/** The in-memory blob store: a map from keys to bytes, and the byte chunks of what is being staged. */
module MemoryBlobStore {
  import opened ByteChunks
  import opened JsNumbers
  import opened ObjectKeys
  import opened Utf8
  import opened Wrappers

  datatype Failure =
    | NotFound
    | LimitExceeded
    | IntegrityMismatch
    | AccessDenied
    | TooManyParts
    | TransportFailed
    | InvalidMaximum
    | HashSpent

  /** What a call returns or throws. */
  datatype Reply =
    | Done
    | Staged(handle: StagingHandle)
    | Stored(blob: BlobHandle)
    | Content(bytes: seq<byte>)
    | Cleaned(entries: nat)
    | Failed(error: Failure)

  predicate IsMaximum(maximumBytes: int) {
    1 <= maximumBytes <= MAXIMUM_SAFE_INTEGER
  }

  /** `spent` says that the digest of the hash was taken, after which it throws on every use. */
  datatype StagedBlob = StagedBlob(
    handle: StagingHandle,
    maximumBytes: int,
    chunks: seq<seq<byte>>,
    hashed: seq<byte>,
    byteLength: nat,
    spent: bool
  )

  datatype StoredBlob = StoredBlob(workspaceId: string, content: seq<byte>)

  datatype State = State(staging: map<string, StagedBlob>, blobs: map<string, StoredBlob>)

  function Begin(c: Configuration, m: State, w: string, maximumBytes: int, id: string): (State, Reply) {
    if !IsMaximum(maximumBytes) then (m, Failed(InvalidMaximum))
    else
      var handle := StagingHandle(w, c.storageBackendId, id);
      (m.(staging := m.staging[id := StagedBlob(handle, maximumBytes, [], [], 0, false)]), Staged(handle))
  }

  /** `staged` finds the record: the handle names it and carries its workspace and backend. */
  predicate IsStaged(m: State, handle: StagingHandle) {
    && handle.id in m.staging
    && m.staging[handle.id].handle.workspaceId == handle.workspaceId
    && m.staging[handle.id].handle.storageBackendId == handle.storageBackendId
  }

  function Append(m: State, handle: StagingHandle, bytes: seq<byte>): (State, Reply) {
    if !IsStaged(m, handle) then (m, Failed(NotFound))
    else
      var record := m.staging[handle.id];
      if record.byteLength + |bytes| > record.maximumBytes then (m, Failed(LimitExceeded))
      else if record.spent then
        (m.(staging := m.staging[handle.id := record.(chunks := record.chunks + [bytes])]), Failed(HashSpent))
      else
        var grown := record.(chunks := record.chunks + [bytes],
                             hashed := record.hashed + bytes,
                             byteLength := record.byteLength + |bytes|);
        (m.(staging := m.staging[handle.id := grown]), Done)
  }

  function Abort(m: State, handle: StagingHandle): (State, Reply) {
    (m.(staging := m.staging - {handle.id}), Done)
  }

  function Commit(
      c: Configuration, sha256: seq<byte> -> string, m: State, handle: StagingHandle, digest: string, byteLength: int
  ): (State, Reply)
  {
    if !IsSha256(digest) then (m, Failed(IntegrityMismatch))
    else if !IsStaged(m, handle) then (m, Failed(NotFound))
    else
      var record := m.staging[handle.id];
      if record.byteLength != byteLength then (Abort(m, handle).0, Failed(IntegrityMismatch))
      else if record.spent then (m, Failed(HashSpent))
      else if sha256(record.hashed) != digest then (Abort(m, handle).0, Failed(IntegrityMismatch))
      else if !IsWorkspaceId(handle.workspaceId) then
        (m.(staging := m.staging[handle.id := record.(spent := true)]), Failed(AccessDenied))
      else
        var w := handle.workspaceId;
        var blob := BlobHandle(w, c.storageBackendId, ContentKey(c, w, digest));
        (State(m.staging - {handle.id}, m.blobs[blob.key := StoredBlob(w, Flatten(record.chunks))]), Stored(blob))
  }

  function Open(c: Configuration, m: State, handle: BlobHandle, w: string): (State, Reply) {
    if !HandleAccepted(c, handle, w) then (m, Failed(AccessDenied))
    else if handle.key !in m.blobs || m.blobs[handle.key].workspaceId != w then (m, Failed(NotFound))
    else (m, Content(m.blobs[handle.key].content))
  }

  function WriteText(c: Configuration, m: State, handle: BlobHandle, w: string, text: seq<byte>): (State, Reply) {
    if !OutputHandleAccepted(c, handle, w) then (m, Failed(AccessDenied))
    else if handle.key in m.blobs then (m, Failed(IntegrityMismatch))
    else (m.(blobs := m.blobs[handle.key := StoredBlob(w, text)]), Done)
  }

  function Delete(c: Configuration, m: State, handle: BlobHandle, w: string): (State, Reply) {
    if !HandleAccepted(c, handle, w) then (m, Failed(AccessDenied))
    else if handle.key in m.blobs && m.blobs[handle.key].workspaceId != w then (m, Failed(NotFound))
    else (m.(blobs := m.blobs - {handle.key}), Done)
  }

  /** A commit refused for its malformed workspace has taken the digest: the handle is good for nothing but an abort. */
  lemma MalformedCommitSpendsHash(
      c: Configuration, sha256: seq<byte> -> string, m: State, handle: StagingHandle, digest: string, byteLength: int,
      more: seq<byte>, otherDigest: string, otherLength: int)
    requires Commit(c, sha256, m, handle, digest, byteLength).1 == Failed(AccessDenied)
    ensures var after := Commit(c, sha256, m, handle, digest, byteLength).0;
      && Append(after, handle, more).1.Failed?
      && Commit(c, sha256, after, handle, otherDigest, otherLength).1.Failed?
  {
    hide IsSha256, IsWorkspaceId, ContentKey, Flatten;
  }

  // ----- whole stories

  function AppendAll(m: State, handle: StagingHandle, chunks: seq<seq<byte>>): State {
    if chunks == [] then m
    else Append(AppendAll(m, handle, chunks[..|chunks| - 1]), handle, chunks[|chunks| - 1]).0
  }

  /** What has been staged under a new handle. */
  function StagedUnder(c: Configuration, m: State, w: string, maximumBytes: int, id: string, chunks: seq<seq<byte>>)
      : State
  {
    AppendAll(Begin(c, m, w, maximumBytes, id).0, StagingHandle(w, c.storageBackendId, id), chunks)
  }

  /** The record that holds these chunks. */
  function Holding(c: Configuration, w: string, maximumBytes: int, id: string, chunks: seq<seq<byte>>): StagedBlob {
    var bytes := Flatten(chunks);
    StagedBlob(StagingHandle(w, c.storageBackendId, id), maximumBytes, chunks, bytes, |bytes|, false)
  }

  lemma AppendedRecord(
      c: Configuration, m: State, w: string, maximumBytes: int, id: string, chunks: seq<seq<byte>>, last: seq<byte>)
    requires |Flatten(chunks + [last])| <= maximumBytes
    ensures var handle := StagingHandle(w, c.storageBackendId, id);
      Append(m.(staging := m.staging[id := Holding(c, w, maximumBytes, id, chunks)]), handle, last).0
        == m.(staging := m.staging[id := Holding(c, w, maximumBytes, id, chunks + [last])])
  {
    FlattenAppend(chunks, last);
    hide Flatten;
  }

  lemma NothingStaged(c: Configuration, m: State, w: string, maximumBytes: int, id: string)
    requires IsMaximum(maximumBytes)
    ensures StagedUnder(c, m, w, maximumBytes, id, [])
      == m.(staging := m.staging[id := Holding(c, w, maximumBytes, id, [])])
  {
  }

  lemma {:induction false} StagedRecord(
      c: Configuration, m: State, w: string, maximumBytes: int, id: string, chunks: seq<seq<byte>>)
    requires IsMaximum(maximumBytes) && |Flatten(chunks)| <= maximumBytes
    ensures StagedUnder(c, m, w, maximumBytes, id, chunks)
      == m.(staging := m.staging[id := Holding(c, w, maximumBytes, id, chunks)])
  {
    hide Flatten, Holding, Append, Begin;
    if chunks == [] {
      NothingStaged(c, m, w, maximumBytes, id);
    } else {
      var front, last := chunks[..|chunks| - 1], chunks[|chunks| - 1];
      assert chunks == front + [last];
      FlattenAppend(front, last);
      StagedRecord(c, m, w, maximumBytes, id, front);
      AppendedRecord(c, m, w, maximumBytes, id, front, last);
    }
  }

  /** An append succeeds exactly when all bytes together stay within the maximum; otherwise it changes nothing. */
  lemma LimitIsExact(
      c: Configuration, m: State, w: string, maximumBytes: int, id: string, chunks: seq<seq<byte>>, more: seq<byte>)
    requires IsMaximum(maximumBytes) && |Flatten(chunks)| <= maximumBytes
    ensures var staged := StagedUnder(c, m, w, maximumBytes, id, chunks);
      var handle := StagingHandle(w, c.storageBackendId, id);
      if |Flatten(chunks)| + |more| <= maximumBytes then Append(staged, handle, more).1 == Done
      else Append(staged, handle, more) == (staged, Failed(LimitExceeded))
  {
    StagedRecord(c, m, w, maximumBytes, id, chunks);
    hide Flatten, StagedUnder;
  }

  /**
   * What was staged in any chunks is stored exactly when the commit names its digest and its length, and is then opened
   * as it was appended. Otherwise nothing is stored.
   */
  lemma CommittedIsOpened(
      c: Configuration, sha256: seq<byte> -> string, m: State, w: string, maximumBytes: int, id: string,
      chunks: seq<seq<byte>>, digest: string, byteLength: int)
    requires IsMaximum(maximumBytes) && |Flatten(chunks)| <= maximumBytes && IsWorkspaceId(w)
    ensures var bytes, handle := Flatten(chunks), StagingHandle(w, c.storageBackendId, id);
      var staged := StagedUnder(c, m, w, maximumBytes, id, chunks);
      var (after, reply) := Commit(c, sha256, staged, handle, digest, byteLength);
      && (reply.Stored? <==> IsSha256(digest) && digest == sha256(bytes) && byteLength == |bytes|)
      && (!reply.Stored? ==> reply == Failed(IntegrityMismatch) && after.blobs == m.blobs)
      && (IsSha256(digest) ==> after.staging == m.staging - {id})
      && (reply.Stored? ==>
            && reply.blob.key == WorkspaceRoot(c, w) + "/content/" + digest
            && after.blobs == m.blobs[reply.blob.key := StoredBlob(w, bytes)]
            && (HandleAccepted(c, reply.blob, w) ==> Open(c, after, reply.blob, w) == (after, Content(bytes))))
  {
    StagedRecord(c, m, w, maximumBytes, id, chunks);
    hide Flatten, StagedUnder, HandleAccepted, WorkspaceRoot, IsSha256, IsWorkspaceId;
  }

  /** An output is written once, opened as written, and deleting it leaves the store as it was before. */
  lemma OutputComesAndGoes(
      c: Configuration, m: State, handle: BlobHandle, w: string, text: seq<byte>, other: seq<byte>)
    ensures var (after, reply) := WriteText(c, m, handle, w, text);
      && (reply == Done <==> OutputHandleAccepted(c, handle, w) && handle.key !in m.blobs)
      && (reply != Done ==> after == m)
      && (reply == Done ==>
            && Open(c, after, handle, w) == (after, Content(text))
            && WriteText(c, after, handle, w, other) == (after, Failed(IntegrityMismatch))
            && Delete(c, after, handle, w) == (m, Done)
            && Open(c, m, handle, w).1 == Failed(NotFound))
  {
    hide HandleAccepted, DerivativePrefix;
    assert handle.key !in m.blobs ==> m.blobs[handle.key := StoredBlob(w, text)] - {handle.key} == m.blobs;
  }

  class InMemoryBlobStore {
    const keys: Configuration
    const sha256: seq<byte> -> string
    var staging: map<string, StagedBlob>
    var blobs: map<string, StoredBlob>

    constructor (keys: Configuration, sha256: seq<byte> -> string)
      ensures this.keys == keys && this.sha256 == sha256
      ensures Contents() == State(map[], map[])
    {
      this.keys, this.sha256 := keys, sha256;
      staging, blobs := map[], map[];
    }

    ghost function Contents(): State
      reads this
    {
      State(staging, blobs)
    }

    /** `id` is the random UUID of the new handle. */
    method BeginStaging(w: string, maximumBytes: int, id: string) returns (reply: Reply)
      modifies this
      ensures (Contents(), reply) == Begin(keys, old(Contents()), w, maximumBytes, id)
    {
      if !(1 <= maximumBytes <= MAXIMUM_SAFE_INTEGER) {
        return Failed(InvalidMaximum);
      }
      var handle := StagingHandle(w, keys.storageBackendId, id);
      staging := staging[id := StagedBlob(handle, maximumBytes, [], [], 0, false)];
      return Staged(handle);
    }

    method AppendBytes(handle: StagingHandle, bytes: seq<byte>) returns (reply: Reply)
      modifies this
      ensures (Contents(), reply) == Append(old(Contents()), handle, bytes)
    {
      var record := Find(handle);
      if record.None? {
        return Failed(NotFound);
      }
      var found := record.value;
      if found.byteLength + |bytes| > found.maximumBytes {
        return Failed(LimitExceeded);
      }
      found := found.(chunks := found.chunks + [bytes]);
      staging := staging[handle.id := found];
      if found.spent {
        return Failed(HashSpent);
      }
      found := found.(hashed := found.hashed + bytes, byteLength := found.byteLength + |bytes|);
      staging := staging[handle.id := found];
      assert staging == old(staging)[handle.id := found];
      return Done;
    }

    method CommitStaged(handle: StagingHandle, digest: string, byteLength: int) returns (reply: Reply)
      modifies this
      ensures (Contents(), reply) == Commit(keys, sha256, old(Contents()), handle, digest, byteLength)
    {
      if !IsSha256(digest) {
        return Failed(IntegrityMismatch);
      }
      var record := Find(handle);
      if record.None? {
        return Failed(NotFound);
      }
      if record.value.byteLength != byteLength {
        AbortStaged(handle);
        return Failed(IntegrityMismatch);
      }
      if record.value.spent {
        return Failed(HashSpent);
      }
      staging := staging[handle.id := record.value.(spent := true)];
      if sha256(record.value.hashed) != digest {
        AbortStaged(handle);
        assert staging == old(staging) - {handle.id};
        return Failed(IntegrityMismatch);
      }
      var w := handle.workspaceId;
      if !IsWorkspaceId(w) {
        return Failed(AccessDenied);
      }
      var blob := BlobHandle(w, keys.storageBackendId, ContentKey(keys, w, digest));
      var content := Join(record.value.chunks);
      blobs := blobs[blob.key := StoredBlob(w, content)];
      staging := staging - {handle.id};
      assert staging == old(staging) - {handle.id};
      return Stored(blob);
    }

    method AbortStaged(handle: StagingHandle)
      modifies this
      ensures (Contents(), Done) == Abort(old(Contents()), handle)
    {
      staging := staging - {handle.id};
    }

    method OpenBlob(handle: BlobHandle, w: string) returns (reply: Reply)
      ensures (Contents(), reply) == Open(keys, Contents(), handle, w)
    {
      if !HandleAccepted(keys, handle, w) {
        return Failed(AccessDenied);
      }
      if handle.key !in blobs || blobs[handle.key].workspaceId != w {
        return Failed(NotFound);
      }
      return Content(blobs[handle.key].content);
    }

    method WriteOutput(handle: BlobHandle, w: string, text: seq<byte>) returns (reply: Reply)
      modifies this
      ensures (Contents(), reply) == WriteText(keys, old(Contents()), handle, w, text)
    {
      if !OutputHandleAccepted(keys, handle, w) {
        return Failed(AccessDenied);
      }
      if handle.key in blobs {
        return Failed(IntegrityMismatch);
      }
      blobs := blobs[handle.key := StoredBlob(w, text)];
      return Done;
    }

    method DeleteBlob(handle: BlobHandle, w: string) returns (reply: Reply)
      modifies this
      ensures (Contents(), reply) == Delete(keys, old(Contents()), handle, w)
    {
      if !HandleAccepted(keys, handle, w) {
        return Failed(AccessDenied);
      }
      if handle.key in blobs && blobs[handle.key].workspaceId != w {
        return Failed(NotFound);
      }
      blobs := blobs - {handle.key};
      return Done;
    }

    method Find(handle: StagingHandle) returns (record: Option<StagedBlob>)
      ensures record == if IsStaged(Contents(), handle) then Some(staging[handle.id]) else None
    {
      if handle.id in staging {
        var found := staging[handle.id];
        if found.handle.workspaceId == handle.workspaceId && found.handle.storageBackendId == handle.storageBackendId {
          return Some(found);
        }
      }
      return None;
    }
  }
}
