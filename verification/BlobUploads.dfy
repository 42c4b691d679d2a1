/** Which multipart uploads are open: without lost requests, those of the staged records and no others. */
module BlobUploads {
  import opened BlobParts
  import opened BlobRuns
  import opened BlobSafety
  import opened MemoryBlobStore
  import opened ObjectKeys
  import opened Store = ObjectStore
  import opened S3BlobStore
  import opened Utf8
  import opened Wrappers

  /** Some staged record will complete this upload or abort it. */
  ghost predicate Owned(s: S3State, u: nat)
    requires u in s.bucket.uploads
  {
    exists id :: id in s.staging && s.staging[id].uploadId == u && s.bucket.uploads[u].key == s.staging[id].key
  }

  ghost predicate NoOrphans(s: S3State) {
    s.bucket.faults == [] && forall u | u in s.bucket.uploads :: Owned(s, u)
  }

  /** The record's upload, if it is open, is under the record's key, and it is not open once it was completed. */
  predicate Abortable(b: Bucket, r: StagedMultipart) {
    r.uploadId in b.uploads ==> b.uploads[r.uploadId].key == r.key && !r.completed
  }

  // ----- an abort

  lemma AbortMultipartEnds(b: Bucket, key: string, uploadId: nat)
    requires b.faults == [] && (uploadId in b.uploads ==> b.uploads[uploadId].key == key)
    ensures var after := AbortMultipart(b, key, uploadId).0;
      after.faults == [] && after.uploads == b.uploads - {uploadId} && after.objects == b.objects
  {
  }

  lemma DeleteEnds(b: Bucket, key: string)
    requires b.faults == []
    ensures var after := DeleteObject(b, key).0;
      after.faults == [] && after.uploads == b.uploads && after.objects == b.objects - {key}
  {
  }

  /** Without faults an accepted abort leaves nothing behind: no record, no upload, no staging object. */
  lemma AbortLeavesNothing(c: Configuration, s: S3State, handle: StagingHandle)
    requires handle.id in s.staging && s.bucket.faults == [] && Abortable(s.bucket, s.staging[handle.id])
    requires handle.storageBackendId == c.storageBackendId && IsWorkspaceId(handle.workspaceId)
    ensures var (after, reply), r := AbortStep(c, s, handle), s.staging[handle.id];
      && reply == Done && after.bucket.faults == []
      && after.staging == s.staging - {handle.id}
      && after.bucket.uploads == s.bucket.uploads - {r.uploadId}
      && after.bucket.objects == s.bucket.objects - {r.key}
  {
    hide IsWorkspaceId, AbortMultipart, DeleteObject;
    var r := s.staging[handle.id];
    if r.completed {
      DeleteEnds(s.bucket, r.key);
      assert s.bucket.uploads - {r.uploadId} == s.bucket.uploads;
    } else {
      AbortMultipartEnds(s.bucket, r.key, r.uploadId);
      DeleteEnds(AbortMultipart(s.bucket, r.key, r.uploadId).0, r.key);
    }
  }

  // ----- what a call on one record keeps

  lemma OwnerIsAbortable(c: Configuration, s: S3State, id: string)
    requires Records(c, s) && NoOrphans(s) && id in s.staging
    ensures Abortable(s.bucket, s.staging[id])
  {
    var r := s.staging[id];
    assert Recorded(c, s.bucket, id, r);
    if r.uploadId in s.bucket.uploads {
      assert Owned(s, r.uploadId);
      var j :| j in s.staging && s.staging[j].uploadId == r.uploadId
        && s.bucket.uploads[r.uploadId].key == s.staging[j].key;
    }
  }

  /** Uploads but this one are as they were, so their owners stay. */
  lemma RecordReplaced(s: S3State, after: S3State, id: string, r: StagedMultipart)
    requires NoOrphans(s) && id in s.staging && TouchesUpload(s.bucket, after.bucket, s.staging[id].uploadId)
    requires r.uploadId == s.staging[id].uploadId && r.key == s.staging[id].key
    requires Abortable(s.bucket, s.staging[id])
    requires after.staging == s.staging[id := r]
    ensures NoOrphans(after)
  {
    forall u | u in after.bucket.uploads ensures Owned(after, u) {
      assert Owned(s, u);
      if u == r.uploadId {
        assert after.staging[id] == r;
      } else {
        var j :| j in s.staging && s.staging[j].uploadId == u && s.bucket.uploads[u].key == s.staging[j].key;
        assert after.staging[j] == s.staging[j];
      }
    }
  }

  lemma RecordRemoved(s: S3State, after: S3State, id: string)
    requires NoOrphans(s) && id in s.staging && TouchesUpload(s.bucket, after.bucket, s.staging[id].uploadId)
    requires s.staging[id].uploadId !in after.bucket.uploads && after.staging == s.staging - {id}
    ensures NoOrphans(after)
  {
    forall u | u in after.bucket.uploads ensures Owned(after, u) {
      assert Owned(s, u);
      var j :| j in s.staging && s.staging[j].uploadId == u && s.bucket.uploads[u].key == s.staging[j].key;
      assert after.staging[j] == s.staging[j];
    }
  }

  /** No record has changed, and no upload has been added. */
  lemma UploadsOnlyShrink(s: S3State, after: S3State)
    requires NoOrphans(s) && after.staging == s.staging && after.bucket.faults == []
    requires forall u | u in after.bucket.uploads ::
      u in s.bucket.uploads && after.bucket.uploads[u] == s.bucket.uploads[u]
    ensures NoOrphans(after)
  {
    forall u | u in after.bucket.uploads ensures Owned(after, u) {
      assert Owned(s, u);
    }
  }

  lemma AbortKeepsOwners(c: Configuration, s: S3State, handle: StagingHandle)
    requires NoOrphans(s) && handle.id in s.staging && Abortable(s.bucket, s.staging[handle.id])
    ensures NoOrphans(AbortStep(c, s, handle).0)
  {
    if handle.storageBackendId == c.storageBackendId && IsWorkspaceId(handle.workspaceId) {
      AbortLeavesNothing(c, s, handle);
      AbortedBucket(c, s, handle);
      hide AbortStep, IsWorkspaceId;
      RecordRemoved(s, AbortStep(c, s, handle).0, handle.id);
    }
  }

  lemma AppendKeepsOwners(c: Configuration, s: S3State, handle: StagingHandle, content: seq<byte>)
    requires ValidConfiguration(c) && Records(c, s) && WellBuffered(c, s) && NoOrphans(s)
    ensures NoOrphans(AppendStep(c, s, handle, content).0)
  {
    if Found(s, handle) && s.staging[handle.id].byteLength + |content| <= s.staging[handle.id].maximumBytes {
      var id, r := handle.id, s.staging[handle.id];
      assert Recorded(c, s.bucket, id, r);
      OwnerIsAbortable(c, s, id);
      ReceivedAccounts(c, s.bucket, id, r, content);
      FillPartsAccounts(c, s.bucket, Received(r, content), content);
      var (bucket, grown, failure) := FillParts(c, s.bucket, Received(r, content), content);
      var appended := S3State(s.staging[id := grown], bucket);
      hide FillParts, Accounts, Records, Recorded, WellBuffered, NoOrphans, AbortStep;
      RecordReplaced(s, appended, id, grown);
      if failure.Some? {
        AbortKeepsOwners(c, appended, handle);
      }
    }
  }

  // ----- a commit

  lemma FlushTouches(b: Bucket, r: StagedMultipart)
    requires Counted(r) && r.uploadId < b.serial
    ensures var (after, s, failure) := Flush(b, r);
      ChangesOnly(b, after, r.uploadId) && s.uploadId == r.uploadId && s.key == r.key && s.completed == r.completed
  {
    hide UploadBuffered, Counted;
    if r.bufferedBytes > 0 {
      UploadBufferedChanges(b, r, r.bufferedBytes);
    }
  }

  lemma CompleteEnds(b: Bucket, key: string, uploadId: nat, parts: seq<PartReference>)
    ensures var (after, done) := CompleteMultipart(b, key, uploadId, parts);
      TouchesUpload(b, after, uploadId) && (done.Some? ==> uploadId !in after.uploads)
  {
    hide Completable, Assembled;
  }

  lemma MoveTouches(b: Bucket, r: StagedMultipart, targetKey: string)
    ensures var (after, s, failure) := MoveObject(b, r, targetKey);
      s == r && after.uploads == b.uploads && after.serial == b.serial && (b.faults == [] ==> after.faults == [])
  {
  }

  /** Storing the parts ends the upload, unless it fails before that. */
  lemma StorePartsEnds(b: Bucket, r: StagedMultipart, targetKey: string)
    requires !r.completed
    ensures var (after, s, failure) := StoreParts(b, r, targetKey);
      && TouchesUpload(b, after, r.uploadId) && s.uploadId == r.uploadId && s.key == r.key
      && (s.completed || failure.None? ==> r.uploadId !in after.uploads)
  {
    hide AbortMultipart, PutObject, CompleteMultipart, MoveObject;
    if r.parts == [] {
      AbortTouches(b, r.key, r.uploadId);
      PutStores(AbortMultipart(b, r.key, r.uploadId).0, targetKey, []);
    } else {
      CompleteEnds(b, r.key, r.uploadId, r.parts);
      MoveTouches(CompleteMultipart(b, r.key, r.uploadId, r.parts).0, r.(completed := true), targetKey);
    }
  }

  lemma StoreContentEnds(b: Bucket, r: StagedMultipart, targetKey: string)
    requires Counted(r) && r.uploadId < b.serial && !r.completed
    ensures var (after, s, failure) := StoreContent(b, r, targetKey);
      && TouchesUpload(b, after, r.uploadId) && s.uploadId == r.uploadId && s.key == r.key
      && (s.completed || failure.None? ==> r.uploadId !in after.uploads)
  {
    hide StoreParts, Flush, Counted;
    FlushTouches(b, r);
    var (flushed, full, failure) := Flush(b, r);
    if failure.None? {
      StorePartsEnds(flushed, full, targetKey);
    }
  }

  lemma CommitKeepsOwners(
      c: Configuration, sha256: seq<byte> -> string, s: S3State, handle: StagingHandle, digest: string, byteLength: int)
    requires ValidConfiguration(c) && Records(c, s) && WellBuffered(c, s) && NoOrphans(s)
    ensures NoOrphans(CommitStep(c, sha256, s, handle, digest, byteLength).0)
  {
    if IsSha256(digest) && Found(s, handle) {
      var id, r := handle.id, s.staging[handle.id];
      assert Recorded(c, s.bucket, id, r);
      FoundIsAbortable(c, s, handle);
      OwnerIsAbortable(c, s, id);
      var target := ContentKey(c, handle.workspaceId, digest);
      StoreContentEnds(s.bucket, r, target);
      hide Records, Recorded, WellBuffered, NoOrphans, AbortStep, StoreContent, IsSha256, IsWorkspaceId, ContentKey;
      if r.byteLength != byteLength || sha256(r.hashed) != digest {
        AbortKeepsOwners(c, s, handle);
      } else {
        var (bucket, stored, failure) := StoreContent(s.bucket, r, target);
        if failure.None? {
          RecordRemoved(s, S3State(s.staging - {id}, bucket), id);
        } else {
          var failed := S3State(s.staging[id := stored], bucket);
          RecordReplaced(s, failed, id, stored);
          AbortKeepsOwners(c, failed, handle);
        }
      }
    }
  }

  // ----- the other calls

  lemma BeginKeepsOwners(c: Configuration, s: S3State, w: string, maximumBytes: int, id: string)
    requires Records(c, s) && NoOrphans(s) && id !in s.staging
    ensures NoOrphans(BeginStep(c, s, w, maximumBytes, id).0)
  {
    hide IsWorkspaceId, StagingKey, Records, NoOrphans;
    RecordsUseOldUploads(c, s);
    FaultlessOf(s);
    var after := BeginStep(c, s, w, maximumBytes, id).0;
    if after != s {
      RecordAdded(s, after, id);
    }
  }

  lemma RecordAdded(s: S3State, after: S3State, id: string)
    requires NoOrphans(s) && id !in s.staging && id in after.staging && after.bucket.faults == []
    requires after.staging == s.staging[id := after.staging[id]]
    requires var r := after.staging[id]; after.bucket.uploads == s.bucket.uploads[r.uploadId := Upload(r.key, map[])]
    ensures NoOrphans(after)
  {
    forall u | u in after.bucket.uploads ensures Owned(after, u) {
      if u != after.staging[id].uploadId {
        assert Owned(s, u);
        var j :| j in s.staging && s.staging[j].uploadId == u && s.bucket.uploads[u].key == s.staging[j].key;
        assert after.staging[j] == s.staging[j];
      }
    }
  }

  lemma {:induction false} DeletionsKeepFaultless(b: Bucket, keys: seq<string>)
    requires b.faults == []
    ensures DeleteListed(b, keys).0.faults == []
    decreases |keys|
  {
    hide LooksStaged;
    if keys != [] {
      DeletionsKeepFaultless(if LooksStaged(keys[0]) then DeleteObject(b, keys[0]).0 else b, keys[1..]);
    }
  }

  lemma {:induction false} AbortsKeepFaultless(b: Bucket, uploads: seq<(string, nat)>)
    requires b.faults == []
    ensures AbortListed(b, uploads).0.faults == []
    decreases |uploads|
  {
    hide LooksStaged;
    if uploads != [] {
      AbortsKeepFaultless(
        if LooksStaged(uploads[0].0) then AbortMultipart(b, uploads[0].0, uploads[0].1).0 else b, uploads[1..]);
    }
  }

  lemma CleanupKeepsOwners(c: Configuration, s: S3State, keys: seq<string>, uploads: seq<(string, nat)>)
    requires NoOrphans(s)
    ensures NoOrphans(CleanupStep(s, keys, uploads).0)
  {
    hide DeleteListed, AbortListed, LooksStaged, CountStaged, KeysOf, NoOrphans;
    assert s.bucket.faults == [] by { FaultlessOf(s); }
    DeleteListedRemoves(s.bucket, keys);
    DeletionsKeepFaultless(s.bucket, keys);
    AbortListedRemoves(DeleteListed(s.bucket, keys).0, uploads);
    AbortsKeepFaultless(DeleteListed(s.bucket, keys).0, uploads);
    UploadsOnlyShrink(s, CleanupStep(s, keys, uploads).0);
  }

  lemma FaultlessOf(s: S3State)
    requires NoOrphans(s)
    ensures s.bucket.faults == []
  {
  }

  lemma ObjectCallsKeepOwners(c: Configuration, s: S3State, blob: BlobHandle, w: string, text: seq<byte>)
    requires NoOrphans(s)
    ensures NoOrphans(WriteStep(c, s, blob, w, text).0)
    ensures NoOrphans(DeleteStep(c, s, blob, w).0)
    ensures NoOrphans(OpenStep(c, s, blob, w).0)
  {
    hide NoOrphans, HandleAccepted, OutputHandleAccepted;
    FaultlessOf(s);
    UploadsOnlyShrink(s, WriteStep(c, s, blob, w, text).0);
    UploadsOnlyShrink(s, DeleteStep(c, s, blob, w).0);
    UploadsOnlyShrink(s, OpenStep(c, s, blob, w).0);
  }

  lemma CallKeepsOwners(c: Configuration, sha256: seq<byte> -> string, s: S3State, call: Call)
    requires ValidConfiguration(c) && Records(c, s) && WellBuffered(c, s) && NoOrphans(s)
    requires call.Begin? ==> call.id !in s.staging
    ensures NoOrphans(S3Call(c, sha256, s, call).0)
  {
    match call
    case Begin(w, maximumBytes, id) => BeginKeepsOwners(c, s, w, maximumBytes, id);
    case Append(handle, content) => AppendKeepsOwners(c, s, handle, content);
    case Commit(handle, digest, byteLength) => CommitKeepsOwners(c, sha256, s, handle, digest, byteLength);
    case Abort(handle) =>
      if handle.id in s.staging {
        OwnerIsAbortable(c, s, handle.id);
        AbortKeepsOwners(c, s, handle);
      }
    case Write(blob, w, text) => ObjectCallsKeepOwners(c, s, blob, w, text);
    case Delete(blob, w) => ObjectCallsKeepOwners(c, s, blob, w, []);
    case Open(blob, w) => ObjectCallsKeepOwners(c, s, blob, w, []);
    case Cleanup(keys, uploads) => CleanupKeepsOwners(c, s, keys, uploads);
  }

  // ----- whole runs

  /** No random identifier is drawn twice. */
  predicate DistinctDraws(calls: seq<Call>) {
    forall i, j | 0 <= i < j < |calls| && calls[i].Begin? && calls[j].Begin? :: calls[i].id != calls[j].id
  }

  lemma {:induction false} StagedWasDrawn(
      c: Configuration, sha256: seq<byte> -> string, s: S3State, calls: seq<Call>, id: string)
    requires c.multipartPartSizeBytes > 0 && WellBuffered(c, s) && s.staging == map[]
    requires forall i | 0 <= i < |calls| :: !Draws(calls[i], id)
    ensures id !in S3Run(c, sha256, s, calls).staging
  {
    if calls != [] {
      StagedWasDrawn(c, sha256, s, calls[..|calls| - 1], id);
      NoCallRevives(c, sha256, S3Run(c, sha256, s, calls[..|calls| - 1]), calls[|calls| - 1], id);
    }
  }

  /**
   * After every run without faults each open upload belongs to a staged record, whatever was appended, refused,
   * mismatched, aborted or cleaned up. In particular none is open when no handle is.
   */
  lemma {:induction false} NoUploadIsOrphaned(
      c: Configuration, sha256: seq<byte> -> string, objects: map<string, seq<byte>>, serial: nat, calls: seq<Call>)
    requires ValidConfiguration(c) && DistinctDraws(calls)
    ensures var start := S3State(map[], Bucket(objects, map[], serial, []));
      && WellBuffered(c, start)
      && var after := S3Run(c, sha256, start, calls);
         && Records(c, after) && NoOrphans(after)
         && (after.staging == map[] ==> after.bucket.uploads == map[])
  {
    var start := S3State(map[], Bucket(objects, map[], serial, []));
    if calls != [] {
      var front, call := calls[..|calls| - 1], calls[|calls| - 1];
      NoUploadIsOrphaned(c, sha256, objects, serial, front);
      var before := S3Run(c, sha256, start, front);
      if call.Begin? {
        forall i | 0 <= i < |front| ensures !Draws(front[i], call.id) {
          assert front[i] == calls[i];
        }
        StagedWasDrawn(c, sha256, start, front, call.id);
      }
      EveryCallIsSafe(c, sha256, before, call);
      CallKeepsOwners(c, sha256, before, call);
    }
    hide S3Call, S3Run, Records, NoOrphans;
    NothingStagedNothingOpen(S3Run(c, sha256, start, calls));
  }

  lemma NothingStagedNothingOpen(s: S3State)
    requires NoOrphans(s)
    ensures s.staging == map[] ==> s.bucket.uploads == map[]
  {
    if s.bucket.uploads != map[] {
      var u :| u in s.bucket.uploads;
      assert Owned(s, u);
    }
  }
}
