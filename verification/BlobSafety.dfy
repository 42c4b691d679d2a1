/** What the S3 store keeps on every run, whatever requests or responses are lost. */
module BlobSafety {
  import opened BlobParts
  import opened BlobRuns
  import opened ByteChunks
  import opened MemoryBlobStore
  import opened ObjectKeys
  import opened Store = ObjectStore
  import opened S3BlobStore
  import opened Utf8
  import opened Wrappers

  // ----- the invariant of the staging map

  ghost predicate Recorded(c: Configuration, b: Bucket, id: string, r: StagedMultipart) {
    && Accounts(c, b, r, [])
    && r.bufferedBytes < c.multipartPartSizeBytes
    && r.byteLength == |r.hashed| <= r.maximumBytes
    && IsWorkspaceId(r.handle.workspaceId)
    && r.handle == StagingHandle(r.handle.workspaceId, c.storageBackendId, id)
    && r.key == StagingKey(c, r.handle.workspaceId, id)
    && !r.completed
  }

  /** All records but that of `except` are sound, and no two records share an upload. */
  ghost predicate RecordsBut(c: Configuration, s: S3State, except: Option<string>) {
    && (forall id | id in s.staging && except != Some(id) :: Recorded(c, s.bucket, id, s.staging[id]))
    && (forall i, j | i in s.staging && j in s.staging && i != j :: s.staging[i].uploadId != s.staging[j].uploadId)
  }

  ghost predicate Records(c: Configuration, s: S3State) {
    RecordsBut(c, s, None)
  }

  /** A record is not disturbed by what happens to other uploads, nor by the end of its own. */
  lemma Undisturbed(c: Configuration, b: Bucket, after: Bucket, id: string, r: StagedMultipart)
    requires Recorded(c, b, id, r)
    requires b.serial <= after.serial
    requires r.uploadId in after.uploads ==>
      r.uploadId in b.uploads && after.uploads[r.uploadId] == b.uploads[r.uploadId]
    ensures Recorded(c, after, id, r)
  {
  }

  lemma OthersUndisturbed(c: Configuration, s: S3State, after: Bucket, id: string)
    requires id in s.staging && RecordsBut(c, s, Some(id)) && TouchesUpload(s.bucket, after, s.staging[id].uploadId)
    ensures RecordsBut(c, s.(bucket := after), Some(id))
  {
    forall j | j in s.staging && Some(id) != Some(j) ensures Recorded(c, after, j, s.staging[j]) {
      Undisturbed(c, s.bucket, after, j, s.staging[j]);
    }
  }

  // ----- what a call may do to the objects

  /** Where the object at `k` can come from. */
  predicate MayHold(
      sha256: seq<byte> -> string, c: Configuration, before: map<string, seq<byte>>, call: Call, k: string,
      content: seq<byte>)
  {
    || (k in before && content == before[k])
    || (call.Write? && k == call.blob.key && k !in before && content == call.text
        && OutputHandleAccepted(c, call.blob, call.workspaceId))
    || (call.Commit? && k == ContentKey(c, call.staging.workspaceId, call.digest) && sha256(content) == call.digest)
  }

  /** Which calls may remove the object at `k`. */
  predicate MayRemove(call: Call, k: string) {
    || (call.Delete? && k == call.blob.key)
    || (call.Cleanup? && k in call.keys && LooksStaged(k))
  }

  /** Every object that is not a staging object comes from somewhere and goes only when a call asks for that. */
  ghost predicate Frame(
      sha256: seq<byte> -> string, c: Configuration, before: map<string, seq<byte>>, call: Call,
      after: map<string, seq<byte>>)
  {
    && (forall k | k in after :: IsStagingKey(c, k) || MayHold(sha256, c, before, call, k, after[k]))
    && (forall k | k in before && k !in after :: IsStagingKey(c, k) || MayRemove(call, k))
  }

  // ----- one call

  lemma BeginIsSafe(c: Configuration, sha256: seq<byte> -> string, s: S3State, call: Call)
    requires ValidConfiguration(c) && Records(c, s) && call.Begin?
    ensures var after := BeginStep(c, s, call.workspaceId, call.maximumBytes, call.id).0;
      Records(c, after) && Frame(sha256, c, s.bucket.objects, call, after.bucket.objects)
  {
    hide Recorded, StagingKey, IsWorkspaceId, ValidConfiguration;
    var w, id := call.workspaceId, call.id;
    var (bucket, created) := CreateMultipart(s.bucket, StagingKey(c, w, id));
    RecordsUseOldUploads(c, s);
    if IsMaximum(call.maximumBytes) && IsWorkspaceId(w) {
      NewRecord(c, s.bucket, w, call.maximumBytes, id);
    }
    forall j | j in s.staging ensures Recorded(c, bucket, j, s.staging[j]) {
      Undisturbed(c, s.bucket, bucket, j, s.staging[j]);
    }
  }

  lemma NewRecord(c: Configuration, b: Bucket, w: string, maximumBytes: int, id: string)
    requires ValidConfiguration(c) && IsWorkspaceId(w) && IsMaximum(maximumBytes)
    ensures var (bucket, created) := CreateMultipart(b, StagingKey(c, w, id));
      created.Some? ==>
        var handle := StagingHandle(w, c.storageBackendId, id);
        Recorded(c, bucket, id,
                 StagedMultipart(handle, StagingKey(c, w, id), created.value, maximumBytes, [], [], [], 0, 0, false))
  {
    hide IsWorkspaceId, StagingKey;
  }

  lemma RecordsUseOldUploads(c: Configuration, s: S3State)
    requires Records(c, s)
    ensures forall j | j in s.staging :: s.staging[j].uploadId < s.bucket.serial
  {
    forall j | j in s.staging ensures s.staging[j].uploadId < s.bucket.serial {
      assert Recorded(c, s.bucket, j, s.staging[j]);
    }
  }

  lemma AbortedUpload(b: Bucket, key: string, uploadId: nat)
    ensures ChangesOnly(b, AbortMultipart(b, key, uploadId).0, uploadId)
  {
  }

  lemma DeletedObject(b: Bucket, key: string)
    ensures var after := DeleteObject(b, key).0;
      && after.uploads == b.uploads && after.serial == b.serial && (b.faults == [] ==> after.faults == [])
      && (after.objects == b.objects || after.objects == b.objects - {key})
  {
  }

  /** What an abort does to the bucket. */
  lemma AbortedBucket(c: Configuration, s: S3State, handle: StagingHandle)
    requires handle.id in s.staging && !AbortStep(c, s, handle).1.Failed?
    ensures var r, after := s.staging[handle.id], AbortStep(c, s, handle).0.bucket;
      && TouchesUpload(s.bucket, after, r.uploadId)
      && (after.objects == s.bucket.objects || after.objects == s.bucket.objects - {r.key})
  {
    hide IsWorkspaceId, AbortMultipart, DeleteObject;
    var r := s.staging[handle.id];
    var aborted := if r.completed then s.bucket else AbortMultipart(s.bucket, r.key, r.uploadId).0;
    AbortedUpload(s.bucket, r.key, r.uploadId);
    DeletedObject(aborted, r.key);
  }

  /** The end of a staging handle: its upload and its staging object go, nothing else. */
  lemma AbortIsSafe(c: Configuration, s: S3State, handle: StagingHandle)
    requires handle.id in s.staging && RecordsBut(c, s, Some(handle.id))
    ensures var (after, reply) := AbortStep(c, s, handle);
      && (reply.Failed? ==> after == s)
      && (!reply.Failed? ==>
            && Records(c, after)
            && after.staging == s.staging - {handle.id}
            && (after.bucket.objects == s.bucket.objects
                || after.bucket.objects == s.bucket.objects - {s.staging[handle.id].key}))
  {
    var (after, reply) := AbortStep(c, s, handle);
    if !reply.Failed? {
      var r := s.staging[handle.id];
      AbortedBucket(c, s, handle);
      OthersUndisturbed(c, s, after.bucket, handle.id);
      hide TouchesUpload, Recorded, AbortMultipart, DeleteObject;
    }
  }

  /** A handle that names a record carries everything the abort checks. */
  lemma FoundIsAbortable(c: Configuration, s: S3State, handle: StagingHandle)
    requires Found(s, handle) && Recorded(c, s.bucket, handle.id, s.staging[handle.id])
    ensures handle == s.staging[handle.id].handle
    ensures handle.storageBackendId == c.storageBackendId && IsWorkspaceId(handle.workspaceId)
    ensures IsStagingKey(c, s.staging[handle.id].key)
  {
  }

  lemma ReplacedIsSound(c: Configuration, s: S3State, after: Bucket, id: string, r: StagedMultipart)
    requires id in s.staging && Records(c, s) && TouchesUpload(s.bucket, after, r.uploadId)
    requires r.uploadId == s.staging[id].uploadId
    ensures RecordsBut(c, S3State(s.staging[id := r], after), Some(id))
    ensures Recorded(c, after, id, r) ==> Records(c, S3State(s.staging[id := r], after))
  {
    OthersUndisturbed(c, s, after, id);
  }

  lemma ReceivedAccounts(c: Configuration, b: Bucket, id: string, r: StagedMultipart, content: seq<byte>)
    requires Recorded(c, b, id, r)
    ensures Accounts(c, b, Received(r, content), content)
  {
    if Present(b, r) {
      var sent := Assembled(b.uploads[r.uploadId], r.parts) + Flatten(r.buffers);
      assert sent + [] == sent;
    }
  }

  /** The guard of `append` that leaves the handle as it is. */
  predicate ExceedsLimit(s: S3State, handle: StagingHandle, content: seq<byte>)
    requires handle.id in s.staging
  {
    s.staging[handle.id].byteLength + |content| > s.staging[handle.id].maximumBytes
  }

  lemma AppendIsSafe(c: Configuration, sha256: seq<byte> -> string, s: S3State, call: Call)
    requires ValidConfiguration(c) && Records(c, s) && WellBuffered(c, s) && call.Append?
    ensures var (after, reply) := AppendStep(c, s, call.staging, call.content);
      && Records(c, after)
      && Frame(sha256, c, s.bucket.objects, call, after.bucket.objects)
      && (Found(s, call.staging) && reply.Failed? ==>
            (call.staging.id in after.staging <==> ExceedsLimit(s, call.staging, call.content)))
  {
    var handle, content := call.staging, call.content;
    if Found(s, handle) {
      var id, r := handle.id, s.staging[handle.id];
      assert Recorded(c, s.bucket, id, r);
      if r.byteLength + |content| <= r.maximumBytes {
        FoundIsAbortable(c, s, handle);
        ReceivedAccounts(c, s.bucket, id, r, content);
        FillPartsAccounts(c, s.bucket, Received(r, content), content);
        var (bucket, grown, failure) := FillParts(c, s.bucket, Received(r, content), content);
        var appended := S3State(s.staging[id := grown], bucket);
        ReplacedIsSound(c, s, bucket, id, grown);
        if failure.None? {
          assert Recorded(c, bucket, id, grown);
        } else {
          AbortIsSafe(c, appended, handle);
        }
      }
    }
  }

  lemma CommitIsSafe(c: Configuration, sha256: seq<byte> -> string, s: S3State, call: Call)
    requires ValidConfiguration(c) && Records(c, s) && WellBuffered(c, s) && call.Commit?
    ensures var (after, reply) := CommitStep(c, sha256, s, call.staging, call.digest, call.byteLength);
      && Records(c, after)
      && Frame(sha256, c, s.bucket.objects, call, after.bucket.objects)
      && (Found(s, call.staging) ==> (call.staging.id in after.staging <==> !IsSha256(call.digest)))
  {
    var handle := call.staging;
    if IsSha256(call.digest) && Found(s, handle) {
      var id, r := handle.id, s.staging[handle.id];
      assert Recorded(c, s.bucket, id, r);
      FoundIsAbortable(c, s, handle);
      if r.byteLength != call.byteLength || sha256(r.hashed) != call.digest {
        AbortIsSafe(c, s, handle);
      } else {
        StoringIsSafe(c, sha256, s, call);
      }
    }
  }

  lemma StoringIsSafe(c: Configuration, sha256: seq<byte> -> string, s: S3State, call: Call)
    requires ValidConfiguration(c) && Records(c, s) && WellBuffered(c, s) && call.Commit?
    requires Found(s, call.staging) && sha256(s.staging[call.staging.id].hashed) == call.digest
    requires IsSha256(call.digest) && s.staging[call.staging.id].byteLength == call.byteLength
    ensures var (after, reply) := CommitStep(c, sha256, s, call.staging, call.digest, call.byteLength);
      && Records(c, after)
      && Frame(sha256, c, s.bucket.objects, call, after.bucket.objects)
      && call.staging.id !in after.staging
  {
    var handle := call.staging;
    var id, r, target := handle.id, s.staging[handle.id], ContentKey(c, handle.workspaceId, call.digest);
    assert Recorded(c, s.bucket, id, r);
    FoundIsAbortable(c, s, handle);
    KindsAreDisjoint(c, target);
    StoreContentStores(c, s.bucket, r, target);
    var (bucket, stored, failure) := StoreContent(s.bucket, r, target);
    StoreContentKeepsIdentity(s.bucket, r, target);
    ReplacedIsSound(c, s, bucket, id, stored);
    FramedByStoring(c, sha256, s.bucket, bucket, r, call);
    if failure.Some? {
      AbortIsSafe(c, S3State(s.staging[id := stored], bucket), handle);
    }
  }

  lemma StoreContentKeepsIdentity(b: Bucket, r: StagedMultipart, targetKey: string)
    requires Counted(r) && r.uploadId < b.serial
    ensures var stored := StoreContent(b, r, targetKey).1; stored.uploadId == r.uploadId && stored.key == r.key
  {
    hide UploadBuffered, AbortMultipart, PutObject, CompleteMultipart, CopyObject, DeleteObject;
    if r.bufferedBytes > 0 {
      UploadBufferedChanges(b, r, r.bufferedBytes);
    }
  }

  /** With or without the deletion of the staging object. */
  lemma FramedByStoring(
      c: Configuration, sha256: seq<byte> -> string, b: Bucket, after: Bucket, r: StagedMultipart, call: Call)
    requires call.Commit? && sha256(r.hashed) == call.digest && IsStagingKey(c, r.key)
    requires StoresOnly(b, after, r, ContentKey(c, call.staging.workspaceId, call.digest))
    ensures Frame(sha256, c, b.objects, call, after.objects)
    ensures Frame(sha256, c, b.objects, call, after.objects - {r.key})
  {
    hide TouchesUpload, IsStagingKey;
  }

  lemma CleanupIsSafe(c: Configuration, sha256: seq<byte> -> string, s: S3State, call: Call)
    requires Records(c, s) && call.Cleanup?
    ensures var after := CleanupStep(s, call.keys, call.uploads).0;
      && Records(c, after)
      && Frame(sha256, c, s.bucket.objects, call, after.bucket.objects)
      && Removed(s.bucket.objects, after.bucket.objects, call.keys)
  {
    hide Recorded, DeleteListed, AbortListed, LooksStaged, CountStaged, KeysOf;
    var listed := List(List(s.bucket).0).0;
    DeleteListedRemoves(listed, call.keys);
    AbortListedRemoves(DeleteListed(listed, call.keys).0, call.uploads);
    var after := CleanupStep(s, call.keys, call.uploads).0;
    assert UploadsShrink(s.bucket, after.bucket);
    forall j | j in s.staging ensures Recorded(c, after.bucket, j, s.staging[j]) {
      Undisturbed(c, s.bucket, after.bucket, j, s.staging[j]);
    }
  }

  ghost predicate UploadsShrink(b: Bucket, after: Bucket) {
    && after.serial == b.serial
    && forall u | u in after.uploads :: u in b.uploads && after.uploads[u] == b.uploads[u]
  }

  /** Only listed objects that look staged may be gone; the others are as they were. */
  ghost predicate Removed(before: map<string, seq<byte>>, after: map<string, seq<byte>>, keys: seq<string>) {
    && (forall k | k in after :: k in before && after[k] == before[k])
    && (forall k | k in before && k !in after :: k in keys && LooksStaged(k))
  }

  lemma {:induction false} DeleteListedRemoves(b: Bucket, keys: seq<string>)
    ensures var after := DeleteListed(b, keys).0; UploadsShrink(b, after) && Removed(b.objects, after.objects, keys)
    decreases |keys|
  {
    if keys != [] {
      var rest := if LooksStaged(keys[0]) then DeleteObject(b, keys[0]).0 else b;
      DeleteListedRemoves(rest, keys[1..]);
    }
  }

  lemma {:induction false} AbortListedRemoves(b: Bucket, uploads: seq<(string, nat)>)
    ensures var after := AbortListed(b, uploads).0; UploadsShrink(b, after) && after.objects == b.objects
    decreases |uploads|
  {
    if uploads != [] {
      var rest := if LooksStaged(uploads[0].0) then AbortMultipart(b, uploads[0].0, uploads[0].1).0 else b;
      AbortListedRemoves(rest, uploads[1..]);
    }
  }

  lemma UploadsUntouched(c: Configuration, s: S3State, after: Bucket)
    requires Records(c, s) && after.uploads == s.bucket.uploads && after.serial == s.bucket.serial
    ensures Records(c, s.(bucket := after))
  {
    forall j | j in s.staging ensures Recorded(c, after, j, s.staging[j]) {
      Undisturbed(c, s.bucket, after, j, s.staging[j]);
    }
  }

  lemma WriteIsSafe(c: Configuration, sha256: seq<byte> -> string, s: S3State, call: Call)
    requires Records(c, s) && call.Write?
    ensures var after := WriteStep(c, s, call.blob, call.workspaceId, call.text).0;
      Records(c, after) && Frame(sha256, c, s.bucket.objects, call, after.bucket.objects)
  {
    hide Records, IsStagingKey, HandleAccepted, ContentKey;
    UploadsUntouched(c, s, WriteStep(c, s, call.blob, call.workspaceId, call.text).0.bucket);
  }

  lemma DeleteIsSafe(c: Configuration, sha256: seq<byte> -> string, s: S3State, call: Call)
    requires Records(c, s) && call.Delete?
    ensures var after := DeleteStep(c, s, call.blob, call.workspaceId).0;
      Records(c, after) && Frame(sha256, c, s.bucket.objects, call, after.bucket.objects)
  {
    hide Records, IsStagingKey, HandleAccepted, ContentKey;
    UploadsUntouched(c, s, DeleteStep(c, s, call.blob, call.workspaceId).0.bucket);
  }

  lemma OpenIsSafe(c: Configuration, sha256: seq<byte> -> string, s: S3State, call: Call)
    requires Records(c, s) && call.Open?
    ensures var after := OpenStep(c, s, call.blob, call.workspaceId).0;
      Records(c, after) && Frame(sha256, c, s.bucket.objects, call, after.bucket.objects)
  {
    hide Records, IsStagingKey, HandleAccepted, ContentKey;
    UploadsUntouched(c, s, OpenStep(c, s, call.blob, call.workspaceId).0.bucket);
  }

  lemma AbortCallIsSafe(c: Configuration, sha256: seq<byte> -> string, s: S3State, call: Call)
    requires ValidConfiguration(c) && Records(c, s) && WellBuffered(c, s) && call.Abort?
    ensures var after := AbortStep(c, s, call.staging).0;
      Records(c, after) && Frame(sha256, c, s.bucket.objects, call, after.bucket.objects)
  {
    if call.staging.id in s.staging {
      assert Recorded(c, s.bucket, call.staging.id, s.staging[call.staging.id]);
      AbortIsSafe(c, s, call.staging);
    }
  }

  /** Every call keeps the staging map sound and treats objects as the frame says, whatever faults it meets. */
  lemma EveryCallIsSafe(c: Configuration, sha256: seq<byte> -> string, s: S3State, call: Call)
    requires ValidConfiguration(c) && Records(c, s) && WellBuffered(c, s)
    ensures var after := S3Call(c, sha256, s, call).0;
      Records(c, after) && Frame(sha256, c, s.bucket.objects, call, after.bucket.objects)
  {
    hide Records, Frame;
    match call
    case Begin(_, _, _) => BeginIsSafe(c, sha256, s, call);
    case Append(_, _) => AppendIsSafe(c, sha256, s, call);
    case Commit(_, _, _) => CommitIsSafe(c, sha256, s, call);
    case Cleanup(_, _) => CleanupIsSafe(c, sha256, s, call);
    case Abort(_) => AbortCallIsSafe(c, sha256, s, call);
    case Write(_, _, _) => WriteIsSafe(c, sha256, s, call);
    case Delete(_, _) => DeleteIsSafe(c, sha256, s, call);
    case Open(_, _) => OpenIsSafe(c, sha256, s, call);
  }

  // ----- whole runs

  /** Every object at a content key has the digest that the key names. */
  ghost predicate ContentMatches(c: Configuration, sha256: seq<byte> -> string, objects: map<string, seq<byte>>) {
    forall w, digest | ContentKey(c, w, digest) in objects :: sha256(objects[ContentKey(c, w, digest)]) == digest
  }

  lemma FrameKeepsContent(
      c: Configuration, sha256: seq<byte> -> string, before: map<string, seq<byte>>, call: Call,
      after: map<string, seq<byte>>)
    requires ValidConfiguration(c) && Frame(sha256, c, before, call, after) && ContentMatches(c, sha256, before)
    ensures ContentMatches(c, sha256, after)
  {
    forall w, digest | ContentKey(c, w, digest) in after
      ensures sha256(after[ContentKey(c, w, digest)]) == digest
    {
      var k := ContentKey(c, w, digest);
      KindsAreDisjoint(c, k);
      hide ContentKey, IsStagingKey, HandleAccepted;
      assert MayHold(sha256, c, before, call, k, after[k]);
      if call.Commit? && k == ContentKey(c, call.staging.workspaceId, call.digest) {
        ContentKeyNamesDigest(c, w, call.staging.workspaceId, digest, call.digest);
      }
    }
  }

  /** The state of a store that has just been opened on a bucket. */
  ghost predicate Fresh(c: Configuration, sha256: seq<byte> -> string, s: S3State) {
    s.staging == map[] && ContentMatches(c, sha256, s.bucket.objects)
  }

  /**
   * Whatever requests and responses are lost in a run: every object at a content key still has the digest that the
   * key names.
   */
  lemma {:induction false} ContentIsNeverCorrupted(
      c: Configuration, sha256: seq<byte> -> string, s: S3State, calls: seq<Call>)
    requires ValidConfiguration(c) && Fresh(c, sha256, s)
    ensures WellBuffered(c, s)
    ensures var after := S3Run(c, sha256, s, calls);
      Records(c, after) && ContentMatches(c, sha256, after.bucket.objects)
  {
    if calls != [] {
      var call, before := calls[|calls| - 1], S3Run(c, sha256, s, calls[..|calls| - 1]);
      hide Records, ContentMatches, Frame;
      ContentIsNeverCorrupted(c, sha256, s, calls[..|calls| - 1]);
      EveryCallIsSafe(c, sha256, before, call);
      FrameKeepsContent(c, sha256, before.bucket.objects, call, S3Call(c, sha256, before, call).0.bucket.objects);
    }
  }

  /** No call of the run asks for the object at `k` to go. */
  predicate NeverRemoved(calls: seq<Call>, k: string) {
    forall i | 0 <= i < |calls| :: !MayRemove(calls[i], k)
  }

  /** A derivative, once written, stays as it is through every run that does not delete it, whatever faults it meets. */
  lemma {:induction false} DerivativeIsNeverOverwritten(
      c: Configuration, sha256: seq<byte> -> string, s: S3State, calls: seq<Call>, k: string)
    requires ValidConfiguration(c) && Records(c, s) && WellBuffered(c, s)
    requires IsDerivativeKey(c, k) && k in s.bucket.objects && NeverRemoved(calls, k)
    ensures var after := S3Run(c, sha256, s, calls);
      Records(c, after) && k in after.bucket.objects && after.bucket.objects[k] == s.bucket.objects[k]
  {
    if calls != [] {
      var call, before := calls[|calls| - 1], S3Run(c, sha256, s, calls[..|calls| - 1]);
      hide Records;
      DerivativeIsNeverOverwritten(c, sha256, s, calls[..|calls| - 1], k);
      EveryCallIsSafe(c, sha256, before, call);
      KindsAreDisjoint(c, k);
      assert IsContentKey(c, ContentKey(c, if call.Commit? then call.staging.workspaceId else [],
                                        if call.Commit? then call.digest else []));
      hide ContentKey, IsStagingKey, S3Call, IsDerivativeKey;
    }
  }

  /** Exactly when a handle survives a call that failed on it: the two guards that throw before anything is changed. */
  lemma FailureEndsHandle(c: Configuration, sha256: seq<byte> -> string, s: S3State, call: Call)
    requires ValidConfiguration(c) && Records(c, s) && WellBuffered(c, s)
    requires (call.Append? || call.Commit?) && Found(s, call.staging)
    requires S3Call(c, sha256, s, call).1.Failed?
    ensures call.staging.id in S3Call(c, sha256, s, call).0.staging <==>
      if call.Append? then ExceedsLimit(s, call.staging, call.content) else !IsSha256(call.digest)
  {
    hide Records, Frame;
    if call.Append? {
      AppendIsSafe(c, sha256, s, call);
    } else {
      CommitIsSafe(c, sha256, s, call);
    }
  }

  predicate Draws(call: Call, id: string) {
    call.Begin? && call.id == id
  }

  lemma NoCallRevives(c: Configuration, sha256: seq<byte> -> string, s: S3State, call: Call, id: string)
    requires c.multipartPartSizeBytes > 0 && WellBuffered(c, s) && id !in s.staging && !Draws(call, id)
    ensures id !in S3Call(c, sha256, s, call).0.staging
  {
    hide WellBuffered, FillParts, StoreContent, HandleAccepted;
  }

  /** Unless the random identifier is drawn again, an ended handle accepts nothing more. */
  lemma {:induction false} EndedHandleStaysEnded(
      c: Configuration, sha256: seq<byte> -> string, s: S3State, calls: seq<Call>, call: Call)
    requires c.multipartPartSizeBytes > 0 && WellBuffered(c, s)
    requires (call.Append? || call.Commit?) && call.staging.id !in s.staging
    requires forall i | 0 <= i < |calls| :: !Draws(calls[i], call.staging.id)
    ensures var after := S3Run(c, sha256, s, calls);
      && call.staging.id !in after.staging
      && S3Call(c, sha256, after, call)
          == (after, Failed(if call.Commit? && !IsSha256(call.digest) then IntegrityMismatch else NotFound))
  {
    if calls != [] {
      var front, last := calls[..|calls| - 1], calls[|calls| - 1];
      EndedHandleStaysEnded(c, sha256, s, front, call);
      NoCallRevives(c, sha256, S3Run(c, sha256, s, front), last, call.staging.id);
    }
    RefusesUnknown(c, sha256, S3Run(c, sha256, s, calls), call);
    hide S3Call;
  }

  lemma RefusesUnknown(c: Configuration, sha256: seq<byte> -> string, s: S3State, call: Call)
    requires c.multipartPartSizeBytes > 0 && WellBuffered(c, s)
    requires (call.Append? || call.Commit?) && call.staging.id !in s.staging
    ensures S3Call(c, sha256, s, call)
      == (s, Failed(if call.Commit? && !IsSha256(call.digest) then IntegrityMismatch else NotFound))
  {
  }
}
