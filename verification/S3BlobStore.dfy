/**
 * The S3 blob store: bytes are re-chunked into parts of one size, uploaded as they fill, completed under a staging
 * key, copied to the content key and deleted again.
 */
module S3BlobStore {
  import opened ByteChunks
  import opened JsNumbers
  import opened MemoryBlobStore
  import opened ObjectKeys
  import opened Store = ObjectStore
  import opened Substrings
  import opened Utf8
  import opened Wrappers

  datatype StagedMultipart = StagedMultipart(
    handle: StagingHandle,
    key: string,
    uploadId: nat,
    maximumBytes: int,
    hashed: seq<byte>,
    buffers: seq<seq<byte>>,
    parts: seq<PartReference>,
    byteLength: nat,
    bufferedBytes: nat,
    completed: bool
  )

  datatype S3State = S3State(staging: map<string, StagedMultipart>, bucket: Bucket)

  // ----- the calls as functions of the state

  function BeginStep(c: Configuration, s: S3State, w: string, maximumBytes: int, id: string): (r: (S3State, Reply))
    ensures c.multipartPartSizeBytes > 0 && WellBuffered(c, s) ==> WellBuffered(c, r.0)
  {
    if !IsMaximum(maximumBytes) then (s, Failed(InvalidMaximum))
    else if !IsWorkspaceId(w) then (s, Failed(AccessDenied))
    else
      var handle, key := StagingHandle(w, c.storageBackendId, id), StagingKey(c, w, id);
      var (bucket, created) := CreateMultipart(s.bucket, key);
      if created.None? then (s.(bucket := bucket), Failed(TransportFailed))
      else
        var record := StagedMultipart(handle, key, created.value, maximumBytes, [], [], [], 0, 0, false);
        (S3State(s.staging[id := record], bucket), Staged(handle))
  }

  predicate Found(s: S3State, handle: StagingHandle) {
    && handle.id in s.staging
    && s.staging[handle.id].handle.workspaceId == handle.workspaceId
    && s.staging[handle.id].handle.storageBackendId == handle.storageBackendId
  }

  /** The buffers hold as many bytes as the record counts. */
  predicate Counted(record: StagedMultipart) {
    |Flatten(record.buffers)| == record.bufferedBytes
  }

  /** Between calls every record counts its buffers rightly and holds less than one part in them. */
  predicate WellBuffered(c: Configuration, s: S3State) {
    forall id | id in s.staging ::
      Counted(s.staging[id]) && s.staging[id].bufferedBytes < c.multipartPartSizeBytes
  }

  /** `uploadBufferedPart`: the record's buffers lose `length` bytes and its parts gain one. */
  function UploadBuffered(b: Bucket, record: StagedMultipart, length: nat)
      : (r: (Bucket, StagedMultipart, Option<Failure>))
    requires Counted(record) && length <= record.bufferedBytes
    ensures Counted(r.1) && r.1.bufferedBytes == record.bufferedBytes - length
  {
    var (body, rest) := Take(record.buffers, length).value;
    var shortened := record.(buffers := rest, bufferedBytes := record.bufferedBytes - |body|);
    var partNumber := |record.parts| + 1;
    if partNumber > MAXIMUM_PARTS then (b, shortened, Some(TooManyParts))
    else
      var (bucket, uploaded) := UploadPart(b, record.key, record.uploadId, partNumber, body);
      if uploaded.None? then (bucket, shortened, Some(TransportFailed))
      else (bucket, shortened.(parts := record.parts + [PartReference(partNumber, uploaded.value)]), None)
  }

  /** The bytes are counted and hashed before any of them is sent. */
  function Received(record: StagedMultipart, content: seq<byte>): (r: StagedMultipart)
    ensures Counted(r) == Counted(record) && r.bufferedBytes == record.bufferedBytes
  {
    record.(hashed := record.hashed + content, byteLength := record.byteLength + |content|)
  }

  /** One turn of the loop of `append`: the next `size` bytes join the buffers. */
  function Buffered(record: StagedMultipart, portion: seq<byte>): (r: StagedMultipart)
    requires Counted(record)
    ensures Counted(r)
  {
    FlattenAppend(record.buffers, portion);
    record.(buffers := record.buffers + [portion], bufferedBytes := record.bufferedBytes + |portion|)
  }

  /** The loop of `append`: fill the current part, upload it when it is full, go on with the rest. */
  function FillParts(c: Configuration, b: Bucket, record: StagedMultipart, content: seq<byte>)
      : (r: (Bucket, StagedMultipart, Option<Failure>))
    requires Counted(record) && record.bufferedBytes < c.multipartPartSizeBytes
    ensures Counted(r.1) && r.1.bufferedBytes < c.multipartPartSizeBytes
    decreases |content|
  {
    if content == [] then (b, record, None)
    else
      var size := Min(c.multipartPartSizeBytes - record.bufferedBytes, |content|);
      var filled := Buffered(record, content[..size]);
      if filled.bufferedBytes == c.multipartPartSizeBytes then
        var (bucket, uploaded, failure) := UploadBuffered(b, filled, c.multipartPartSizeBytes);
        if failure.Some? then (bucket, uploaded, failure) else FillParts(c, bucket, uploaded, content[size..])
      else
        FillParts(c, b, filled, content[size..])
  }

  function AbortStep(c: Configuration, s: S3State, handle: StagingHandle): (r: (S3State, Reply))
    ensures WellBuffered(c, s) ==> WellBuffered(c, r.0)
  {
    if handle.id !in s.staging then (s, Done)
    else if handle.storageBackendId != c.storageBackendId || !IsWorkspaceId(handle.workspaceId) then
      (s, Failed(AccessDenied))
    else
      var record := s.staging[handle.id];
      var aborted := if record.completed then s.bucket else AbortMultipart(s.bucket, record.key, record.uploadId).0;
      (S3State(s.staging - {handle.id}, DeleteObject(aborted, record.key).0), Done)
  }

  function AppendStep(c: Configuration, s: S3State, handle: StagingHandle, content: seq<byte>): (r: (S3State, Reply))
    requires WellBuffered(c, s)
    ensures WellBuffered(c, r.0)
  {
    if !Found(s, handle) then (s, Failed(NotFound))
    else
      var record := s.staging[handle.id];
      if record.byteLength + |content| > record.maximumBytes then (s, Failed(LimitExceeded))
      else
        var (bucket, grown, failure) := FillParts(c, s.bucket, Received(record, content), content);
        var appended := S3State(s.staging[handle.id := grown], bucket);
        if failure.None? then (appended, Done)
        else (AbortStep(c, appended, handle).0, Failed(failure.value))
  }

  /** `commit` first uploads what is still buffered. */
  function Flush(b: Bucket, record: StagedMultipart): (r: (Bucket, StagedMultipart, Option<Failure>))
    requires Counted(record)
    ensures Counted(r.1) && r.1.bufferedBytes == 0
  {
    if record.bufferedBytes > 0 then UploadBuffered(b, record, record.bufferedBytes) else (b, record, None)
  }

  /** Without parts the upload is given up and an empty object written. */
  function StoreEmpty(b: Bucket, full: StagedMultipart, targetKey: string): (Bucket, StagedMultipart, Option<Failure>) {
    var (aborted, abortDone) := AbortMultipart(b, full.key, full.uploadId);
    if abortDone.None? then (aborted, full, Some(TransportFailed))
    else
      var (put, putDone) := PutObject(aborted, targetKey, [], false);
      (put, full, if putDone.None? then Some(TransportFailed) else None)
  }

  /** The staging object is copied to its content key and deleted. */
  function MoveObject(b: Bucket, complete: StagedMultipart, targetKey: string)
      : (Bucket, StagedMultipart, Option<Failure>)
  {
    var (copied, copyDone) := CopyObject(b, complete.key, targetKey);
    if copyDone.None? then (copied, complete, Some(TransportFailed))
    else
      var (deleted, deleteDone) := DeleteObject(copied, complete.key);
      (deleted, complete, if deleteDone.None? then Some(TransportFailed) else None)
  }

  function StoreParts(b: Bucket, full: StagedMultipart, targetKey: string): (Bucket, StagedMultipart, Option<Failure>) {
    if full.parts == [] then StoreEmpty(b, full, targetKey)
    else
      var (assembled, completeDone) := CompleteMultipart(b, full.key, full.uploadId, full.parts);
      if completeDone.None? then (assembled, full, Some(TransportFailed))
      else MoveObject(assembled, full.(completed := true), targetKey)
  }

  /** The requests of `commit` once the bytes are known to match: the bucket, the record and what went wrong. */
  function StoreContent(b: Bucket, record: StagedMultipart, targetKey: string)
      : (r: (Bucket, StagedMultipart, Option<Failure>))
    requires Counted(record)
    ensures Counted(r.1) && r.1.bufferedBytes <= record.bufferedBytes
  {
    var (flushed, full, failure) := Flush(b, record);
    if failure.Some? then (flushed, full, failure) else StoreParts(flushed, full, targetKey)
  }

  function CommitStep(
      c: Configuration, sha256: seq<byte> -> string, s: S3State, handle: StagingHandle, digest: string, byteLength: int
  ): (r: (S3State, Reply))
    requires WellBuffered(c, s)
    ensures WellBuffered(c, r.0)
  {
    if !IsSha256(digest) then (s, Failed(IntegrityMismatch))
    else if !Found(s, handle) then (s, Failed(NotFound))
    else
      var record := s.staging[handle.id];
      if record.byteLength != byteLength || sha256(record.hashed) != digest then
        var (aborted, reply) := AbortStep(c, s, handle);
        (aborted, if reply.Failed? then reply else Failed(IntegrityMismatch))
      else if !IsWorkspaceId(handle.workspaceId) then (s, Failed(AccessDenied))
      else
        var w := handle.workspaceId;
        var blob := BlobHandle(w, c.storageBackendId, ContentKey(c, w, digest));
        var (bucket, stored, failure) := StoreContent(s.bucket, record, blob.key);
        if failure.None? then (S3State(s.staging - {handle.id}, bucket), Stored(blob))
        else (AbortStep(c, S3State(s.staging[handle.id := stored], bucket), handle).0, Failed(failure.value))
  }

  function OpenStep(c: Configuration, s: S3State, handle: BlobHandle, w: string): (S3State, Reply) {
    if !HandleAccepted(c, handle, w) then (s, Failed(AccessDenied))
    else
      var (bucket, content) := GetObject(s.bucket, handle.key);
      (s.(bucket := bucket),
       if content.Some? then Content(content.value)
       else if handle.key in s.bucket.objects then Failed(TransportFailed) else Failed(NotFound))
  }

  function WriteStep(c: Configuration, s: S3State, handle: BlobHandle, w: string, text: seq<byte>): (S3State, Reply) {
    if !OutputHandleAccepted(c, handle, w) then (s, Failed(AccessDenied))
    else
      var (bucket, done) := PutObject(s.bucket, handle.key, text, true);
      (s.(bucket := bucket),
       if done.Some? then Done
       else if handle.key in s.bucket.objects then Failed(IntegrityMismatch) else Failed(TransportFailed))
  }

  function DeleteStep(c: Configuration, s: S3State, handle: BlobHandle, w: string): (S3State, Reply) {
    if !HandleAccepted(c, handle, w) then (s, Failed(AccessDenied))
    else
      var (bucket, done) := DeleteObject(s.bucket, handle.key);
      (s.(bucket := bucket), if done.Some? then Done else Failed(TransportFailed))
  }

  // ----- cleaning up abandoned staging objects

  /** The filter of `cleanupStaging`. */
  predicate LooksStaged(key: string) {
    Contains(key, "/staging/")
  }

  function DeleteListed(b: Bucket, keys: seq<string>): (Bucket, Option<()>)
    decreases |keys|
  {
    if keys == [] then (b, Some(()))
    else if !LooksStaged(keys[0]) then DeleteListed(b, keys[1..])
    else
      var (deleted, done) := DeleteObject(b, keys[0]);
      if done.None? then (deleted, None) else DeleteListed(deleted, keys[1..])
  }

  function AbortListed(b: Bucket, uploads: seq<(string, nat)>): (Bucket, Option<()>)
    decreases |uploads|
  {
    if uploads == [] then (b, Some(()))
    else if !LooksStaged(uploads[0].0) then AbortListed(b, uploads[1..])
    else
      var (aborted, done) := AbortMultipart(b, uploads[0].0, uploads[0].1);
      if done.None? then (aborted, None) else AbortListed(aborted, uploads[1..])
  }

  function CountStaged(keys: seq<string>): nat {
    if keys == [] then 0 else (if LooksStaged(keys[0]) then 1 else 0) + CountStaged(keys[1..])
  }

  function KeysOf(uploads: seq<(string, nat)>): seq<string> {
    seq(|uploads|, i requires 0 <= i < |uploads| => uploads[i].0)
  }

  /**
   * `keys` and `uploads` are what the two listings returned under the storage prefix before the given date. The reply
   * is the number of staging entries among them.
   */
  function CleanupStep(s: S3State, keys: seq<string>, uploads: seq<(string, nat)>): (S3State, Reply) {
    var (listed, keysDone) := List(s.bucket);
    if keysDone.None? then (s.(bucket := listed), Failed(TransportFailed)) else
    var (listedTwice, uploadsDone) := List(listed);
    if uploadsDone.None? then (s.(bucket := listedTwice), Failed(TransportFailed)) else
    var (deleted, deleteDone) := DeleteListed(listedTwice, keys);
    if deleteDone.None? then (s.(bucket := deleted), Failed(TransportFailed)) else
    var (aborted, abortDone) := AbortListed(deleted, uploads);
    (s.(bucket := aborted),
     if abortDone.None? then Failed(TransportFailed) else Cleaned(CountStaged(keys) + CountStaged(KeysOf(uploads))))
  }

  // ----- the store itself

  class S3CompatibleBlobStore {
    const keys: Configuration
    const sha256: seq<byte> -> string
    var staging: map<string, StagedMultipart>
    var bucket: Bucket

    constructor (keys: Configuration, sha256: seq<byte> -> string, bucket: Bucket)
      ensures this.keys == keys && this.sha256 == sha256
      ensures Contents() == S3State(map[], bucket) && WellBuffered(keys, Contents())
    {
      this.keys, this.sha256 := keys, sha256;
      this.staging, this.bucket := map[], bucket;
    }

    ghost function Contents(): S3State
      reads this
    {
      S3State(staging, bucket)
    }

    ghost predicate Valid()
      reads this
    {
      keys.multipartPartSizeBytes > 0 && WellBuffered(keys, Contents())
    }

    /** `id` is the random UUID of the new handle. */
    method BeginStaging(w: string, maximumBytes: int, id: string) returns (reply: Reply)
      requires Valid()
      modifies this
      ensures Valid() && (Contents(), reply) == BeginStep(keys, old(Contents()), w, maximumBytes, id)
    {
      if !IsMaximum(maximumBytes) {
        return Failed(InvalidMaximum);
      }
      if !IsWorkspaceId(w) {
        return Failed(AccessDenied);
      }
      var handle, key := StagingHandle(w, keys.storageBackendId, id), StagingKey(keys, w, id);
      var created := CreateMultipart(bucket, key);
      bucket := created.0;
      if created.1.None? {
        return Failed(TransportFailed);
      }
      staging := staging[id := StagedMultipart(handle, key, created.1.value, maximumBytes, [], [], [], 0, 0, false)];
      return Staged(handle);
    }

    method AppendBytes(handle: StagingHandle, content: seq<byte>) returns (reply: Reply)
      requires Valid()
      modifies this
      ensures Valid() && (Contents(), reply) == AppendStep(keys, old(Contents()), handle, content)
    {
      hide FillParts, AbortStep, Counted;
      var found := Find(handle);
      if found.None? {
        return Failed(NotFound);
      }
      var record := found.value;
      if record.byteLength + |content| > record.maximumBytes {
        return Failed(LimitExceeded);
      }
      record := Received(record, content);
      var failure;
      record, failure := FillBufferedParts(record, content);
      staging := staging[handle.id := record];
      if failure.Some? {
        var _ := AbortStaged(handle);
        return Failed(failure.value);
      }
      return Done;
    }

    /** The body of the `try` block of `append`. */
    method FillBufferedParts(counted: StagedMultipart, content: seq<byte>)
        returns (record: StagedMultipart, failure: Option<Failure>)
      requires Counted(counted) && counted.bufferedBytes < keys.multipartPartSizeBytes
      modifies this`bucket
      ensures (bucket, record, failure) == FillParts(keys, old(bucket), counted, content)
      ensures Counted(record) && record.bufferedBytes < keys.multipartPartSizeBytes
    {
      hide UploadBuffered, Counted;
      record, failure := counted, None;
      var offset := 0;
      assert content[0..] == content;
      while offset < |content|
        invariant 0 <= offset <= |content|
        invariant Counted(record) && record.bufferedBytes < keys.multipartPartSizeBytes
        invariant FillParts(keys, bucket, record, content[offset..]) == FillParts(keys, old(bucket), counted, content)
      {
        var available := keys.multipartPartSizeBytes - record.bufferedBytes;
        var nextOffset := Min(offset + available, |content|);
        var portion := content[offset..nextOffset];
        assert portion == content[offset..][..nextOffset - offset];
        assert content[offset..][nextOffset - offset..] == content[nextOffset..];
        record := Buffered(record, portion);
        offset := nextOffset;
        if record.bufferedBytes == keys.multipartPartSizeBytes {
          record, failure := UploadBufferedPart(record, keys.multipartPartSizeBytes);
          if failure.Some? {
            return;
          }
        }
      }
      return record, None;
    }

    method CommitStaged(handle: StagingHandle, digest: string, byteLength: int) returns (reply: Reply)
      requires Valid()
      modifies this
      ensures Valid() && (Contents(), reply) == CommitStep(keys, sha256, old(Contents()), handle, digest, byteLength)
    {
      if !IsSha256(digest) {
        return Failed(IntegrityMismatch);
      }
      var found := Find(handle);
      if found.None? {
        return Failed(NotFound);
      }
      var record := found.value;
      if record.byteLength != byteLength || sha256(record.hashed) != digest {
        var aborted := AbortStaged(handle);
        return if aborted.Failed? then aborted else Failed(IntegrityMismatch);
      }
      var w := handle.workspaceId;
      if !IsWorkspaceId(w) {
        return Failed(AccessDenied);
      }
      var blob := BlobHandle(w, keys.storageBackendId, ContentKey(keys, w, digest));
      var failure;
      record, failure := StoreStaged(record, blob.key);
      if failure.Some? {
        staging := staging[handle.id := record];
        var _ := AbortStaged(handle);
        return Failed(failure.value);
      }
      staging := staging - {handle.id};
      return Stored(blob);
    }

    /** The body of the `try` block of `commit`. */
    method StoreStaged(record: StagedMultipart, targetKey: string)
        returns (stored: StagedMultipart, failure: Option<Failure>)
      requires Counted(record) && record.bufferedBytes < keys.multipartPartSizeBytes
      modifies this`bucket
      ensures (bucket, stored, failure) == StoreContent(old(bucket), record, targetKey)
      ensures Counted(stored) && stored.bufferedBytes < keys.multipartPartSizeBytes
    {
      stored, failure := record, None;
      if record.bufferedBytes > 0 {
        stored, failure := UploadBufferedPart(record, record.bufferedBytes);
        if failure.Some? {
          return;
        }
      }
      if stored.parts == [] {
        var aborted := AbortMultipart(bucket, stored.key, stored.uploadId);
        bucket := aborted.0;
        if aborted.1.None? {
          return stored, Some(TransportFailed);
        }
        var put := PutObject(bucket, targetKey, [], false);
        bucket := put.0;
        return stored, if put.1.None? then Some(TransportFailed) else None;
      }
      var completed := CompleteMultipart(bucket, stored.key, stored.uploadId, stored.parts);
      bucket := completed.0;
      if completed.1.None? {
        return stored, Some(TransportFailed);
      }
      stored := stored.(completed := true);
      var copied := CopyObject(bucket, stored.key, targetKey);
      bucket := copied.0;
      if copied.1.None? {
        return stored, Some(TransportFailed);
      }
      var deleted := DeleteObject(bucket, stored.key);
      bucket := deleted.0;
      return stored, if deleted.1.None? then Some(TransportFailed) else None;
    }

    /** `staged` */
    method Find(handle: StagingHandle) returns (record: Option<StagedMultipart>)
      ensures record == if Found(Contents(), handle) then Some(staging[handle.id]) else None
    {
      if handle.id in staging {
        var found := staging[handle.id];
        if found.handle.workspaceId == handle.workspaceId && found.handle.storageBackendId == handle.storageBackendId {
          return Some(found);
        }
      }
      return None;
    }

    /** Failures of the two requests are swallowed. */
    method AbortStaged(handle: StagingHandle) returns (reply: Reply)
      modifies this
      ensures (Contents(), reply) == AbortStep(keys, old(Contents()), handle)
      ensures old(Valid()) ==> Valid()
    {
      if handle.id !in staging {
        return Done;
      }
      if handle.storageBackendId != keys.storageBackendId || !IsWorkspaceId(handle.workspaceId) {
        return Failed(AccessDenied);
      }
      var record := staging[handle.id];
      staging := staging - {handle.id};
      if !record.completed {
        bucket := AbortMultipart(bucket, record.key, record.uploadId).0;
      }
      bucket := DeleteObject(bucket, record.key).0;
      return Done;
    }

    method UploadBufferedPart(record: StagedMultipart, length: nat)
        returns (uploaded: StagedMultipart, failure: Option<Failure>)
      requires Counted(record) && length <= record.bufferedBytes
      modifies this`bucket
      ensures (bucket, uploaded, failure) == UploadBuffered(old(bucket), record, length)
    {
      var body, rest := TakeBytes(record.buffers, length);
      if body.None? {
        assert false;
      }
      uploaded := record.(buffers := rest, bufferedBytes := record.bufferedBytes - |body.value|);
      var partNumber := |record.parts| + 1;
      if partNumber > MAXIMUM_PARTS {
        return uploaded, Some(TooManyParts);
      }
      var sent := UploadPart(bucket, record.key, record.uploadId, partNumber, body.value);
      bucket := sent.0;
      if sent.1.None? {
        return uploaded, Some(TransportFailed);
      }
      return uploaded.(parts := record.parts + [PartReference(partNumber, sent.1.value)]), None;
    }

    method OpenBlob(handle: BlobHandle, w: string) returns (reply: Reply)
      modifies this`bucket
      ensures (Contents(), reply) == OpenStep(keys, old(Contents()), handle, w)
    {
      if !HandleAccepted(keys, handle, w) {
        return Failed(AccessDenied);
      }
      var got := GetObject(bucket, handle.key);
      var present := handle.key in bucket.objects;
      bucket := got.0;
      if got.1.Some? {
        return Content(got.1.value);
      }
      return if present then Failed(TransportFailed) else Failed(NotFound);
    }

    method WriteText(handle: BlobHandle, w: string, text: seq<byte>) returns (reply: Reply)
      modifies this`bucket
      ensures (Contents(), reply) == WriteStep(keys, old(Contents()), handle, w, text)
    {
      if !OutputHandleAccepted(keys, handle, w) {
        return Failed(AccessDenied);
      }
      var put := PutObject(bucket, handle.key, text, true);
      var present := handle.key in bucket.objects;
      bucket := put.0;
      return if put.1.Some? then Done else if present then Failed(IntegrityMismatch) else Failed(TransportFailed);
    }

    method DeleteBlob(handle: BlobHandle, w: string) returns (reply: Reply)
      modifies this`bucket
      ensures (Contents(), reply) == DeleteStep(keys, old(Contents()), handle, w)
    {
      if !HandleAccepted(keys, handle, w) {
        return Failed(AccessDenied);
      }
      var deleted := DeleteObject(bucket, handle.key);
      bucket := deleted.0;
      return if deleted.1.Some? then Done else Failed(TransportFailed);
    }

    /** `keys` and `uploads` are what the two listings return. */
    method CleanupStaging(listedKeys: seq<string>, listedUploads: seq<(string, nat)>) returns (reply: Reply)
      modifies this`bucket
      ensures (Contents(), reply) == CleanupStep(old(Contents()), listedKeys, listedUploads)
    {
      var first := List(bucket);
      bucket := first.0;
      if first.1.None? {
        return Failed(TransportFailed);
      }
      var second := List(bucket);
      bucket := second.0;
      if second.1.None? {
        return Failed(TransportFailed);
      }
      ghost var deletions := DeleteListed(bucket, listedKeys);
      var treated := 0;
      for i := 0 to |listedKeys|
        invariant DeleteListed(bucket, listedKeys[i..]) == deletions
        invariant treated + CountStaged(listedKeys[i..]) == CountStaged(listedKeys)
      {
        assert listedKeys[i..][1..] == listedKeys[i + 1..];
        if LooksStaged(listedKeys[i]) {
          treated := treated + 1;
          var deleted := DeleteObject(bucket, listedKeys[i]);
          bucket := deleted.0;
          if deleted.1.None? {
            return Failed(TransportFailed);
          }
        }
      }
      ghost var aborts := AbortListed(bucket, listedUploads);
      ghost var names := KeysOf(listedUploads);
      for i := 0 to |listedUploads|
        invariant AbortListed(bucket, listedUploads[i..]) == aborts
        invariant treated + CountStaged(names[i..]) == CountStaged(listedKeys) + CountStaged(names)
      {
        assert listedUploads[i..][1..] == listedUploads[i + 1..] && names[i..][1..] == names[i + 1..];
        if LooksStaged(listedUploads[i].0) {
          treated := treated + 1;
          var aborted := AbortMultipart(bucket, listedUploads[i].0, listedUploads[i].1);
          bucket := aborted.0;
          if aborted.1.None? {
            return Failed(TransportFailed);
          }
        }
      }
      return Cleaned(treated);
    }
  }
}
