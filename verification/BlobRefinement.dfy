/** Without lost requests the S3 store answers every call as the in-memory store does. */
module BlobRefinement {
  import opened BlobParts
  import opened BlobRuns
  import opened BlobSafety
  import opened ByteChunks
  import M = MemoryBlobStore
  import opened MemoryBlobStore
  import opened ObjectKeys
  import opened Store = ObjectStore
  import opened S3BlobStore
  import opened Utf8
  import opened Wrappers

  /** The largest staged object that fits into the maximal number of parts. */
  function Capacity(c: Configuration): nat {
    Store.MAXIMUM_PARTS * c.multipartPartSizeBytes
  }

  ghost predicate SameRecord(m: StagedBlob, r: StagedMultipart) {
    && m.handle == r.handle
    && m.maximumBytes == r.maximumBytes
    && m.hashed == r.hashed
    && m.byteLength == r.byteLength
    && Flatten(m.chunks) == r.hashed
    && !m.spent
  }

  /** The record's upload is still open, and it will not outgrow the parts. */
  ghost predicate StillOpen(c: Configuration, workspaces: set<string>, b: Bucket, r: StagedMultipart) {
    Present(b, r) && r.maximumBytes <= Capacity(c) && r.handle.workspaceId in workspaces
  }

  /** Both stores stage the same bytes under the same handles, and every upload is still open. */
  ghost predicate SameStagings(
      c: Configuration, workspaces: set<string>, m: map<string, StagedBlob>, s: map<string, StagedMultipart>, b: Bucket)
  {
    && m.Keys == s.Keys
    && (forall id | id in s :: SameRecord(m[id], s[id]))
    && (forall id | id in s :: StillOpen(c, workspaces, b, s[id]))
  }

  /** Both stores hold the same bytes under the same keys, each under the root of its workspace. */
  ghost predicate SameObjects(
      c: Configuration, workspaces: set<string>, m: map<string, StoredBlob>, objects: map<string, seq<byte>>)
  {
    && m.Keys == objects.Keys
    && (forall k | k in objects ::
          && m[k].content == objects[k]
          && m[k].workspaceId in workspaces
          && WorkspaceRoot(c, m[k].workspaceId) <= k
          && !IsStagingKey(c, k))
  }

  ghost predicate Related(c: Configuration, workspaces: set<string>, m: State, s: S3State) {
    && Records(c, s)
    && s.bucket.faults == []
    && SameStagings(c, workspaces, m.staging, s.staging, s.bucket)
    && SameObjects(c, workspaces, m.blobs, s.bucket.objects)
  }

  /**
   * The calls on which the stores agree: workspaces in use and well formed where the call names one, maximal sizes
   * within the capacity, and handles of this backend for aborts.
   */
  predicate Served(c: Configuration, workspaces: set<string>, call: Call) {
    match call
    case Begin(w, maximumBytes, _) => w in workspaces && IsWorkspaceId(w) && maximumBytes <= Capacity(c)
    case Abort(handle) => handle.storageBackendId == c.storageBackendId && IsWorkspaceId(handle.workspaceId)
    case Write(_, w, _) => w in workspaces
    case Delete(_, w) => w in workspaces
    case Open(_, w) => w in workspaces
    case Cleanup(_, _) => false
    case _ => true
  }

  ghost predicate Agree(
      c: Configuration, workspaces: set<string>, m: (State, Reply), s: (S3State, Reply))
  {
    Related(c, workspaces, m.0, s.0) && m.1 == s.1
  }

  // ----- staging calls

  lemma PairReplaced(
      c: Configuration, ws: set<string>, m: map<string, StagedBlob>, s: map<string, StagedMultipart>, b: Bucket,
      after: Bucket, id: string, blob: StagedBlob, r: StagedMultipart)
    requires SameStagings(c, ws, m, s, b)
    requires forall j | j in s && j != id :: Present(after, s[j])
    requires SameRecord(blob, r) && StillOpen(c, ws, after, r)
    ensures SameStagings(c, ws, m[id := blob], s[id := r], after)
  {
    hide SameRecord;
    var t := s[id := r];
    forall j | j in t ensures StillOpen(c, ws, after, t[j]) {
      assert j != id ==> StillOpen(c, ws, b, s[j]);
    }
  }

  lemma PairRemoved(
      c: Configuration, ws: set<string>, m: map<string, StagedBlob>, s: map<string, StagedMultipart>, b: Bucket,
      after: Bucket, id: string)
    requires SameStagings(c, ws, m, s, b)
    requires forall j | j in s && j != id :: Present(after, s[j])
    ensures SameStagings(c, ws, m - {id}, s - {id}, after)
  {
    hide SameRecord;
    forall j | j in s - {id} ensures StillOpen(c, ws, after, (s - {id})[j]) {
      assert StillOpen(c, ws, b, s[j]);
    }
  }

  lemma BeginAgrees(c: Configuration, ws: set<string>, m: State, s: S3State, w: string, maximumBytes: int, id: string)
    requires ValidConfiguration(c) && Related(c, ws, m, s) && Served(c, ws, Begin(w, maximumBytes, id))
    ensures Agree(c, ws, M.Begin(c, m, w, maximumBytes, id), BeginStep(c, s, w, maximumBytes, id))
  {
    if IsMaximum(maximumBytes) {
      BeginIsSafe(c, _ => "", s, BlobRuns.Begin(w, maximumBytes, id));
      var key := StagingKey(c, w, id);
      var bucket := CreateMultipart(s.bucket, key).0;
      OthersOutliveBegin(c, s, bucket);
      var handle := StagingHandle(w, c.storageBackendId, id);
      PairReplaced(c, ws, m.staging, s.staging, s.bucket, bucket, id,
                   StagedBlob(handle, maximumBytes, [], [], 0, false),
                   StagedMultipart(handle, key, s.bucket.serial, maximumBytes, [], [], [], 0, 0, false));
      hide Records, SameStagings, IsStagingKey, StagingKey;
    }
  }

  lemma OthersOutliveBegin(c: Configuration, s: S3State, after: Bucket)
    requires Records(c, s) && forall j | j in s.staging :: Present(s.bucket, s.staging[j])
    requires s.bucket.uploads.Keys <= after.uploads.Keys
    requires forall u | u in s.bucket.uploads && u < s.bucket.serial :: after.uploads[u] == s.bucket.uploads[u]
    ensures forall j | j in s.staging :: Present(after, s.staging[j])
  {
    forall j | j in s.staging ensures Present(after, s.staging[j]) {
      assert Recorded(c, s.bucket, j, s.staging[j]);
    }
  }

  /** What happens to one upload leaves the others open. */
  lemma OthersStayOpen(c: Configuration, ws: set<string>, m: State, s: S3State, after: Bucket, id: string)
    requires Related(c, ws, m, s) && id in s.staging
    requires TouchesUpload(s.bucket, after, s.staging[id].uploadId)
    ensures forall j | j in s.staging && j != id :: Present(after, s.staging[j])
  {
    forall j | j in s.staging && j != id ensures Present(after, s.staging[j]) {
      assert StillOpen(c, ws, s.bucket, s.staging[j]);
    }
  }

  lemma AppendAgrees(c: Configuration, ws: set<string>, m: State, s: S3State, handle: StagingHandle, content: seq<byte>)
    requires ValidConfiguration(c) && Related(c, ws, m, s) && WellBuffered(c, s)
    ensures Agree(c, ws, M.Append(m, handle, content), AppendStep(c, s, handle, content))
  {
    AppendIsSafe(c, _ => "", s, BlobRuns.Append(handle, content));
    if Found(s, handle) {
      var r := s.staging[handle.id];
      assert SameRecord(m.staging[handle.id], r);
      if r.byteLength + |content| <= r.maximumBytes {
        AppendedStaysRelated(c, ws, m, s, handle, content);
      }
    }
    hide Records, SameStagings, FillParts, IsStagingKey, WellBuffered;
  }

  lemma AppendedStaysRelated(
      c: Configuration, ws: set<string>, m: State, s: S3State, handle: StagingHandle, content: seq<byte>)
    requires Related(c, ws, m, s) && WellBuffered(c, s) && Found(s, handle)
    requires s.staging[handle.id].byteLength + |content| <= s.staging[handle.id].maximumBytes
    ensures var (bucket, grown, failure) := FillParts(c, s.bucket, Received(s.staging[handle.id], content), content);
      && failure.None?
      && bucket.faults == [] && bucket.objects == s.bucket.objects
      && IsStaged(m, handle)
      && SameStagings(c, ws, M.Append(m, handle, content).0.staging, s.staging[handle.id := grown], bucket)
  {
    var id, r := handle.id, s.staging[handle.id];
    assert Recorded(c, s.bucket, id, r) && SameRecord(m.staging[id], r) && StillOpen(c, ws, s.bucket, r);
    hide Related, Recorded, Records, FillParts, WellBuffered, Present, TouchesUpload;
    PartsGoOut(c, s.bucket, id, r, content);
    var (bucket, grown, failure) := FillParts(c, s.bucket, Received(r, content), content);
    OthersStayOpen(c, ws, m, s, bucket, id);
    AppendedRecord(m, handle, content, r, grown);
    var blob := M.Append(m, handle, content).0.staging[id];
    hide SameRecord;
    PairReplaced(c, ws, m.staging, s.staging, s.bucket, bucket, id, blob, grown);
  }

  /** Without faults and within the capacity every part of an append goes out. */
  lemma PartsGoOut(c: Configuration, b: Bucket, id: string, r: StagedMultipart, content: seq<byte>)
    requires Recorded(c, b, id, r) && b.faults == [] && Present(b, r) && r.bufferedBytes < c.multipartPartSizeBytes
    requires r.byteLength + |content| <= r.maximumBytes <= Capacity(c)
    ensures Counted(Received(r, content))
    ensures var (bucket, grown, failure) := FillParts(c, b, Received(r, content), content);
      && failure.None?
      && bucket.faults == [] && bucket.objects == b.objects && TouchesUpload(b, bucket, r.uploadId)
      && Present(bucket, grown)
      && grown.handle == r.handle && grown.maximumBytes == r.maximumBytes
      && grown.hashed == r.hashed + content && grown.byteLength == r.byteLength + |content|
  {
    ReceivedAccounts(c, b, id, r, content);
    FillPartsAccounts(c, b, Received(r, content), content);
    hide FillParts, Accounts, StagingKey;
  }

  lemma AppendedRecord(m: State, handle: StagingHandle, content: seq<byte>, r: StagedMultipart, grown: StagedMultipart)
    requires IsStaged(m, handle) && SameRecord(m.staging[handle.id], r)
    requires r.byteLength + |content| <= r.maximumBytes
    requires grown.handle == r.handle && grown.maximumBytes == r.maximumBytes
    requires grown.hashed == r.hashed + content && grown.byteLength == r.byteLength + |content|
    ensures SameRecord(M.Append(m, handle, content).0.staging[handle.id], grown)
  {
    FlattenAppend(m.staging[handle.id].chunks, content);
  }

  lemma AbortAgrees(c: Configuration, ws: set<string>, m: State, s: S3State, handle: StagingHandle)
    requires ValidConfiguration(c) && Related(c, ws, m, s) && Served(c, ws, BlobRuns.Abort(handle))
    ensures Agree(c, ws, M.Abort(m, handle), AbortStep(c, s, handle))
  {
    hide Records, Recorded, SameStagings, IsStagingKey;
    if handle.id in s.staging {
      AbortReplies(c, s, handle);
      hide AbortStep;
      AbortIsSafe(c, s, handle);
      AbortedStaysRelated(c, ws, m, s, handle);
      PairRemoved(c, ws, m.staging, s.staging, s.bucket, AbortStep(c, s, handle).0.bucket, handle.id);
    } else {
      assert m.staging - {handle.id} == m.staging by {
        SameHandles(c, ws, m.staging, s.staging, s.bucket);
      }
    }
  }

  lemma AbortReplies(c: Configuration, s: S3State, handle: StagingHandle)
    requires handle.storageBackendId == c.storageBackendId && IsWorkspaceId(handle.workspaceId)
    ensures AbortStep(c, s, handle).1 == Done
    ensures Records(c, s) ==> RecordsBut(c, s, Some(handle.id))
  {
    hide IsWorkspaceId, AbortMultipart, DeleteObject;
  }

  lemma SameHandles(
      c: Configuration, ws: set<string>, m: map<string, StagedBlob>, s: map<string, StagedMultipart>, b: Bucket)
    requires SameStagings(c, ws, m, s, b)
    ensures m.Keys == s.Keys
  {
  }

  lemma AbortedStaysRelated(c: Configuration, ws: set<string>, m: State, s: S3State, handle: StagingHandle)
    requires Related(c, ws, m, s) && Served(c, ws, BlobRuns.Abort(handle)) && handle.id in s.staging
    ensures var after := AbortStep(c, s, handle).0.bucket;
      && after.objects == s.bucket.objects
      && after.faults == []
      && forall j | j in s.staging && j != handle.id :: Present(after, s.staging[j])
  {
    var r, after := s.staging[handle.id], AbortStep(c, s, handle).0.bucket;
    assert Recorded(c, s.bucket, handle.id, r);
    assert r.key !in s.bucket.objects;
    assert s.bucket.objects - {r.key} == s.bucket.objects;
    BlobSafety.AbortedBucket(c, s, handle);
    hide AbortStep, StagingKey, IsStagingKey;
    OthersStayOpen(c, ws, m, s, after, handle.id);
  }

  lemma CommitAgrees(
      c: Configuration, sha256: seq<byte> -> string, ws: set<string>, m: State, s: S3State,
      handle: StagingHandle, digest: string, byteLength: int)
    requires ValidConfiguration(c) && Related(c, ws, m, s) && WellBuffered(c, s)
    ensures Agree(c, ws, M.Commit(c, sha256, m, handle, digest, byteLength),
                  CommitStep(c, sha256, s, handle, digest, byteLength))
  {
    if IsSha256(digest) && Found(s, handle) {
      var id, r := handle.id, s.staging[handle.id];
      assert Recorded(c, s.bucket, id, r) && SameRecord(m.staging[id], r);
      FoundIsAbortable(c, s, handle);
      if r.byteLength != byteLength || sha256(r.hashed) != digest {
        AbortAgrees(c, ws, m, s, handle);
      } else {
        StoringAgrees(c, sha256, ws, m, s, handle, digest, byteLength);
      }
    }
  }

  lemma StoringAgrees(
      c: Configuration, sha256: seq<byte> -> string, ws: set<string>, m: State, s: S3State,
      handle: StagingHandle, digest: string, byteLength: int)
    requires ValidConfiguration(c) && Related(c, ws, m, s) && WellBuffered(c, s)
    requires IsSha256(digest) && Found(s, handle) && s.staging[handle.id].handle.workspaceId in ws
    requires s.staging[handle.id].byteLength == byteLength && sha256(s.staging[handle.id].hashed) == digest
    ensures Agree(c, ws, M.Commit(c, sha256, m, handle, digest, byteLength),
                  CommitStep(c, sha256, s, handle, digest, byteLength))
  {
    var id, r, target := handle.id, s.staging[handle.id], ContentKey(c, handle.workspaceId, digest);
    assert Recorded(c, s.bucket, id, r) && SameRecord(m.staging[id], r) && Present(s.bucket, r);
    FoundIsAbortable(c, s, handle);
    KindsAreDisjoint(c, target);
    StoreContentStores(c, s.bucket, r, target);
    StoringIsSafe(c, sha256, s, BlobRuns.Commit(handle, digest, byteLength));
    var (bucket, stored, failure) := StoreContent(s.bucket, r, target);
    OthersStayOpen(c, ws, m, s, bucket, id);
    PairRemoved(c, ws, m.staging, s.staging, s.bucket, bucket, id);
    assert r.key !in s.bucket.objects;
    StoredIsSame(c, ws, m, s.bucket, bucket, r, handle.workspaceId, digest);
  }

  lemma StoredIsSame(
      c: Configuration, ws: set<string>, m: State, b: Bucket, after: Bucket, r: StagedMultipart, w: string,
      digest: string)
    requires SameObjects(c, ws, m.blobs, b.objects) && w in ws && r.key !in b.objects
    requires !IsStagingKey(c, ContentKey(c, w, digest))
    requires StoresOnly(b, after, r, ContentKey(c, w, digest)) && Moved(b, after, r, ContentKey(c, w, digest))
    ensures SameObjects(c, ws, m.blobs[ContentKey(c, w, digest) := StoredBlob(w, r.hashed)], after.objects)
  {
    hide IsStagingKey, TouchesUpload;
    var target := ContentKey(c, w, digest);
    assert WorkspaceRoot(c, w) <= target;
    assert after.objects == b.objects[target := r.hashed];
  }

  // ----- calls on stored objects

  lemma OwnerOfKey(c: Configuration, ws: set<string>, m: map<string, StoredBlob>, objects: map<string, seq<byte>>,
                   blob: BlobHandle, w: string)
    requires ValidConfiguration(c) && DistinctScopes(c, ws) && SameObjects(c, ws, m, objects) && w in ws
    requires HandleAccepted(c, blob, w) && blob.key in objects
    ensures m[blob.key].workspaceId == w
  {
    assert WorkspaceRoot(c, w) <= WorkspaceRoot(c, w) + "/" <= blob.key;
    KeyNamesWorkspace(c, ws, blob.key, m[blob.key].workspaceId, w);
  }

  /** Of a handle that is accepted: no staging object lies there, and whoever stored the object is the caller. */
  lemma AcceptedKey(c: Configuration, ws: set<string>, m: State, s: S3State, blob: BlobHandle, w: string)
    requires ValidConfiguration(c) && DistinctScopes(c, ws) && Related(c, ws, m, s) && w in ws
    requires HandleAccepted(c, blob, w)
    ensures WorkspaceRoot(c, w) <= blob.key
    ensures blob.key in s.bucket.objects ==>
      m.blobs[blob.key].workspaceId == w && m.blobs[blob.key].content == s.bucket.objects[blob.key]
    ensures DerivativePrefix(c, w) <= blob.key ==> !IsStagingKey(c, blob.key)
  {
    assert WorkspaceRoot(c, w) <= WorkspaceRoot(c, w) + "/" <= blob.key;
    if blob.key in s.bucket.objects {
      OwnerOfKey(c, ws, m.blobs, s.bucket.objects, blob, w);
    }
    KindsAreDisjoint(c, blob.key);
  }

  /** A call that changes no upload leaves the stagings related. */
  lemma StagingsUntouched(
      c: Configuration, ws: set<string>, m: map<string, StagedBlob>, s: map<string, StagedMultipart>, b: Bucket,
      after: Bucket)
    requires SameStagings(c, ws, m, s, b) && after.uploads == b.uploads
    ensures SameStagings(c, ws, m, s, after)
  {
    forall id | id in s ensures StillOpen(c, ws, after, s[id]) {
      assert StillOpen(c, ws, b, s[id]);
    }
  }

  lemma WriteAgrees(
      c: Configuration, ws: set<string>, m: State, s: S3State, blob: BlobHandle, w: string, text: seq<byte>)
    requires ValidConfiguration(c) && DistinctScopes(c, ws) && Related(c, ws, m, s) && WellBuffered(c, s) && w in ws
    ensures Agree(c, ws, M.WriteText(c, m, blob, w, text), WriteStep(c, s, blob, w, text))
  {
    WriteIsSafe(c, _ => "", s, BlobRuns.Write(blob, w, text));
    if OutputHandleAccepted(c, blob, w) {
      AcceptedKey(c, ws, m, s, blob, w);
      StagingsUntouched(c, ws, m.staging, s.staging, s.bucket, WriteStep(c, s, blob, w, text).0.bucket);
      hide IsStagingKey, HandleAccepted, Records, WellBuffered, WorkspaceRoot, DerivativePrefix, SameStagings;
    }
  }

  lemma DeleteAgrees(c: Configuration, ws: set<string>, m: State, s: S3State, blob: BlobHandle, w: string)
    requires ValidConfiguration(c) && DistinctScopes(c, ws) && Related(c, ws, m, s) && WellBuffered(c, s) && w in ws
    ensures Agree(c, ws, M.Delete(c, m, blob, w), DeleteStep(c, s, blob, w))
  {
    DeleteIsSafe(c, _ => "", s, BlobRuns.Delete(blob, w));
    if HandleAccepted(c, blob, w) {
      AcceptedKey(c, ws, m, s, blob, w);
      StagingsUntouched(c, ws, m.staging, s.staging, s.bucket, DeleteStep(c, s, blob, w).0.bucket);
      hide IsStagingKey, HandleAccepted, Records, WellBuffered, WorkspaceRoot, SameStagings;
    }
  }

  lemma OpenAgrees(c: Configuration, ws: set<string>, m: State, s: S3State, blob: BlobHandle, w: string)
    requires ValidConfiguration(c) && DistinctScopes(c, ws) && Related(c, ws, m, s) && WellBuffered(c, s) && w in ws
    ensures Agree(c, ws, M.Open(c, m, blob, w), OpenStep(c, s, blob, w))
  {
    if HandleAccepted(c, blob, w) {
      AcceptedKey(c, ws, m, s, blob, w);
    }
  }

  // ----- whole runs

  lemma CallAgrees(
      c: Configuration, sha256: seq<byte> -> string, ws: set<string>, m: State, s: S3State, call: Call)
    requires ValidConfiguration(c) && DistinctScopes(c, ws) && Related(c, ws, m, s) && WellBuffered(c, s)
    requires Served(c, ws, call)
    ensures Agree(c, ws, MemoryCall(c, sha256, m, call), S3Call(c, sha256, s, call))
  {
    hide Related;
    match call
    case Begin(w, maximumBytes, id) => BeginAgrees(c, ws, m, s, w, maximumBytes, id);
    case Append(handle, content) => AppendAgrees(c, ws, m, s, handle, content);
    case Commit(handle, digest, byteLength) => CommitAgrees(c, sha256, ws, m, s, handle, digest, byteLength);
    case Abort(handle) => AbortAgrees(c, ws, m, s, handle);
    case Write(blob, w, text) => WriteAgrees(c, ws, m, s, blob, w, text);
    case Delete(blob, w) => DeleteAgrees(c, ws, m, s, blob, w);
    case Open(blob, w) => OpenAgrees(c, ws, m, s, blob, w);
  }

  predicate AllServed(c: Configuration, workspaces: set<string>, calls: seq<Call>) {
    forall i | 0 <= i < |calls| :: Served(c, workspaces, calls[i])
  }

  /**
   * After every run of served calls on empty stores, both stores hold the same bytes under the same keys and reply
   * alike to the next call; in particular no call runs out of parts.
   */
  lemma {:induction false} StoresAgree(
      c: Configuration, sha256: seq<byte> -> string, ws: set<string>, serial: nat, calls: seq<Call>, next: Call)
    requires ValidConfiguration(c) && DistinctScopes(c, ws) && AllServed(c, ws, calls) && Served(c, ws, next)
    ensures var m := MemoryRun(c, sha256, M.State(map[], map[]), calls);
      var s := S3Run(c, sha256, Opened(serial), calls);
      && Related(c, ws, m, s)
      && (forall k :: k in s.bucket.objects <==> k in m.blobs)
      && (forall k | k in m.blobs :: s.bucket.objects[k] == m.blobs[k].content)
      && MemoryCall(c, sha256, m, next).1 == S3Call(c, sha256, s, next).1
      && S3Call(c, sha256, s, next).1 !in {Failed(TooManyParts), Failed(TransportFailed)}
  {
    RunsStayRelated(c, sha256, ws, serial, calls);
    var m, s := MemoryRun(c, sha256, M.State(map[], map[]), calls), S3Run(c, sha256, Opened(serial), calls);
    hide S3Call, S3Run, MemoryCall, MemoryRun, Related, Served, AllServed, ValidConfiguration, DistinctScopes;
    RelatedBytes(c, ws, m, s);
    RepliesAgree(c, sha256, ws, m, s, next);
  }

  lemma RelatedBytes(c: Configuration, ws: set<string>, m: State, s: S3State)
    requires Related(c, ws, m, s)
    ensures forall k :: k in s.bucket.objects <==> k in m.blobs
    ensures forall k | k in m.blobs :: s.bucket.objects[k] == m.blobs[k].content
  {
    hide Records, SameStagings, IsStagingKey, WorkspaceRoot;
  }

  lemma RepliesAgree(
      c: Configuration, sha256: seq<byte> -> string, ws: set<string>, m: State, s: S3State, call: Call)
    requires ValidConfiguration(c) && DistinctScopes(c, ws) && Related(c, ws, m, s) && WellBuffered(c, s)
    requires Served(c, ws, call)
    ensures MemoryCall(c, sha256, m, call).1 == S3Call(c, sha256, s, call).1
    ensures S3Call(c, sha256, s, call).1 !in {Failed(TooManyParts), Failed(TransportFailed)}
  {
    CallAgrees(c, sha256, ws, m, s, call);
    hide S3Call, MemoryCall, Related, Served, ValidConfiguration, DistinctScopes, WellBuffered;
    MemoryAlwaysResponds(c, sha256, m, call);
  }

  lemma MemoryAlwaysResponds(c: Configuration, sha256: seq<byte> -> string, m: State, call: Call)
    ensures MemoryCall(c, sha256, m, call).1 !in {Failed(TooManyParts), Failed(TransportFailed)}
  {
    hide IsSha256, IsStaged, IsWorkspaceId, HandleAccepted, OutputHandleAccepted, ContentKey;
  }

  /** An S3 store just opened on an empty bucket that loses no request. */
  function Opened(serial: nat): (s: S3State)
    ensures forall c :: WellBuffered(c, s)
  {
    S3State(map[], Bucket(map[], map[], serial, []))
  }

  lemma {:induction false} RunsStayRelated(
      c: Configuration, sha256: seq<byte> -> string, ws: set<string>, serial: nat, calls: seq<Call>)
    requires ValidConfiguration(c) && DistinctScopes(c, ws) && AllServed(c, ws, calls)
    ensures Related(c, ws, MemoryRun(c, sha256, M.State(map[], map[]), calls),
                    S3Run(c, sha256, Opened(serial), calls))
  {
    if calls != [] {
      var front, call := calls[..|calls| - 1], calls[|calls| - 1];
      RunsStayRelated(c, sha256, ws, serial, front);
      var m, s := MemoryRun(c, sha256, M.State(map[], map[]), front), S3Run(c, sha256, Opened(serial), front);
      hide Related;
      CallAgrees(c, sha256, ws, m, s, call);
    }
  }

  // ----- where the stores part

  /** The in-memory store accepts a workspace id that the S3 store refuses. */
  lemma BeginDiffersOnMalformedWorkspace(
      c: Configuration, m: State, s: S3State, w: string, maximumBytes: int, id: string)
    requires IsMaximum(maximumBytes)
    ensures s.bucket.faults == [] ==>
      (M.Begin(c, m, w, maximumBytes, id).1 == BeginStep(c, s, w, maximumBytes, id).1 <==> IsWorkspaceId(w))
  {
  }

  /** An abort ends the staging in memory whatever backend the handle names; the S3 store refuses a foreign one. */
  lemma AbortDiffersOnForeignHandle(c: Configuration, ws: set<string>, m: State, s: S3State, handle: StagingHandle)
    requires ValidConfiguration(c) && Related(c, ws, m, s) && handle.id in s.staging
    ensures M.Abort(m, handle).1 == AbortStep(c, s, handle).1 <==>
      handle.storageBackendId == c.storageBackendId && IsWorkspaceId(handle.workspaceId)
  {
  }

  /** Without faults a commit with the right digest goes through exactly when the bytes fit into the allowed parts. */
  lemma CommitNeedsCapacity(
      c: Configuration, sha256: seq<byte> -> string, s: S3State, handle: StagingHandle, digest: string)
    requires ValidConfiguration(c) && Records(c, s) && WellBuffered(c, s) && s.bucket.faults == []
    requires Found(s, handle) && Present(s.bucket, s.staging[handle.id])
    requires IsSha256(digest) && sha256(s.staging[handle.id].hashed) == digest
    ensures CommitStep(c, sha256, s, handle, digest, s.staging[handle.id].byteLength).1.Stored? <==>
      |s.staging[handle.id].hashed| <= Capacity(c)
  {
    var r, target := s.staging[handle.id], ContentKey(c, handle.workspaceId, digest);
    assert Recorded(c, s.bucket, handle.id, r);
    FoundIsAbortable(c, s, handle);
    KindsAreDisjoint(c, target);
    StoreContentStores(c, s.bucket, r, target);
    OverflowStopsFlush(c, s.bucket, r);
  }

  lemma OverflowStopsFlush(c: Configuration, b: Bucket, r: StagedMultipart)
    requires Accounts(c, b, r, []) && Present(b, r) && r.bufferedBytes < c.multipartPartSizeBytes
    ensures |r.hashed| > Capacity(c) ==> Flush(b, r).2 == Some(TooManyParts)
  {
    var size := c.multipartPartSizeBytes;
    AssembledLength(b.uploads[r.uploadId], r.parts, size);
    TimesMonotone(|r.parts|, Store.MAXIMUM_PARTS, size);
    if |r.parts| < Store.MAXIMUM_PARTS {
      TimesMonotone(|r.parts| + 1, Store.MAXIMUM_PARTS, size);
      assert (|r.parts| + 1) * size == |r.parts| * size + size;
    }
  }
}
