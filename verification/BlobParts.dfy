/** What the parts that a staged record has uploaded, together with its buffers, say about the bytes it received. */
module BlobParts {
  import opened ByteChunks
  import JsNumbers
  import opened MemoryBlobStore
  import opened ObjectKeys
  import opened Store = ObjectStore
  import opened S3BlobStore
  import opened Utf8
  import opened Wrappers

  /** The record's upload has been neither completed nor aborted. */
  predicate Present(b: Bucket, r: StagedMultipart) {
    r.uploadId in b.uploads && b.uploads[r.uploadId].key == r.key
  }

  /** Parts are numbered from one and each is exactly one part size. */
  ghost predicate FullParts(upload: Upload, parts: seq<PartReference>, size: nat) {
    forall i | 0 <= i < |parts| ::
      && parts[i].partNumber == i + 1
      && ListedPart(upload, parts[i])
      && |upload.parts[parts[i].partNumber].body| == size
  }

  /** Uploaded parts followed by the buffers and by the bytes still to be buffered are the bytes hashed so far. */
  ghost predicate Accounts(c: Configuration, b: Bucket, r: StagedMultipart, pending: seq<byte>) {
    && Counted(r)
    && r.uploadId < b.serial
    && |r.parts| <= Store.MAXIMUM_PARTS
    && (Present(b, r) ==>
          && FullParts(b.uploads[r.uploadId], r.parts, c.multipartPartSizeBytes)
          && Assembled(b.uploads[r.uploadId], r.parts) + Flatten(r.buffers) + pending == r.hashed)
  }

  /** Of the uploads, only this one may have changed. */
  ghost predicate TouchesUpload(b: Bucket, after: Bucket, uploadId: nat) {
    && b.serial <= after.serial
    && (b.faults == [] ==> after.faults == [])
    && (uploadId in after.uploads ==>
          uploadId in b.uploads && after.uploads[uploadId].key == b.uploads[uploadId].key)
    && (forall u | u != uploadId :: u in after.uploads <==> u in b.uploads)
    && (forall u | u != uploadId && u in b.uploads :: after.uploads[u] == b.uploads[u])
  }

  /** And no object has. */
  ghost predicate ChangesOnly(b: Bucket, after: Bucket, uploadId: nat) {
    after.objects == b.objects && TouchesUpload(b, after, uploadId)
  }

  lemma {:induction false} AssembledElsewhere(upload: Upload, parts: seq<PartReference>, number: nat, part: Part)
    requires forall i | 0 <= i < |parts| :: ListedPart(upload, parts[i]) && parts[i].partNumber < number
    ensures forall i | 0 <= i < |parts| :: ListedPart(upload.(parts := upload.parts[number := part]), parts[i])
    ensures Assembled(upload.(parts := upload.parts[number := part]), parts) == Assembled(upload, parts)
  {
    if parts != [] {
      AssembledElsewhere(upload, parts[..|parts| - 1], number, part);
    }
  }

  lemma {:induction false} AssembledLength(upload: Upload, parts: seq<PartReference>, size: nat)
    requires FullParts(upload, parts, size)
    ensures |Assembled(upload, parts)| == |parts| * size
  {
    if parts != [] {
      AssembledLength(upload, parts[..|parts| - 1], size);
    }
  }

  /** Two records of one upload that differ in their buffers and parts only. */
  predicate SameStaging(r: StagedMultipart, s: StagedMultipart) {
    s.(buffers := [], parts := [], bufferedBytes := 0) == r.(buffers := [], parts := [], bufferedBytes := 0)
  }

  /** One uploaded part: what it leaves alone, and when it cannot fail. */
  lemma UploadBufferedChanges(b: Bucket, r: StagedMultipart, length: nat)
    requires Counted(r) && length <= r.bufferedBytes && r.uploadId < b.serial
    ensures var (after, s, failure) := UploadBuffered(b, r, length);
      && ChangesOnly(b, after, r.uploadId)
      && SameStaging(r, s)
      && (b.faults == [] && Present(b, r) && |r.parts| < Store.MAXIMUM_PARTS ==> failure.None?)
      && (failure.None? ==> Present(b, r))
  {
    var (body, rest) := Take(r.buffers, length).value;
    hide Counted, Take;
    var (sent, tag) := UploadPart(b, r.key, r.uploadId, |r.parts| + 1, body);
    assert ChangesOnly(b, sent, r.uploadId);
  }

  /** One uploaded part: what it proves. */
  lemma UploadBufferedAccounts(c: Configuration, b: Bucket, r: StagedMultipart, length: nat, pending: seq<byte>)
    requires Accounts(c, b, r, pending) && length <= r.bufferedBytes
    ensures var (after, s, failure) := UploadBuffered(b, r, length);
      failure.None? ==> Extended(c, after, s, length) && AllAccounted(after, s, pending)
  {
    hide Take, SameStaging, ChangesOnly;
    var (after, s, failure) := UploadBuffered(b, r, length);
    if failure.None? {
      UploadBufferedChanges(b, r, length);
      var upload := b.uploads[r.uploadId];
      var (body, rest) := Take(r.buffers, length).value;
      PartAppended(c, upload, r.parts, Part(b.serial, body));
      assert after.uploads[s.uploadId] == upload.(parts := upload.parts[|r.parts| + 1 := Part(b.serial, body)]);
      assert Flatten(r.buffers) == body + Flatten(rest);
      Regrouped(Assembled(upload, r.parts), body, Flatten(rest), pending);
    }
  }

  lemma Regrouped(a: seq<byte>, b: seq<byte>, c: seq<byte>, d: seq<byte>)
    ensures a + (b + c) + d == a + b + c + d
  {
  }

  lemma PartAppended(c: Configuration, upload: Upload, parts: seq<PartReference>, part: Part)
    requires FullParts(upload, parts, c.multipartPartSizeBytes)
    ensures var stored := upload.(parts := upload.parts[|parts| + 1 := part]);
      var all := parts + [PartReference(|parts| + 1, part.eTag)];
      && all[..|all| - 1] == parts
      && FullParts(stored, parts, c.multipartPartSizeBytes)
      && (forall i | 0 <= i < |all| :: ListedPart(stored, all[i]))
      && LastPart(stored, all, |part.body|)
      && Assembled(stored, all) == Assembled(upload, parts) + part.body
  {
    AssembledElsewhere(upload, parts, |parts| + 1, part);
    assert (parts + [PartReference(|parts| + 1, part.eTag)])[..|parts|] == parts;
  }

  /** All parts are full ones but the last, which has `length` bytes. */
  ghost predicate Extended(c: Configuration, b: Bucket, r: StagedMultipart, length: nat) {
    && Counted(r)
    && Present(b, r)
    && r.uploadId < b.serial
    && 0 < |r.parts| <= Store.MAXIMUM_PARTS
    && FullParts(b.uploads[r.uploadId], r.parts[..|r.parts| - 1], c.multipartPartSizeBytes)
    && LastPart(b.uploads[r.uploadId], r.parts, length)
  }

  ghost predicate LastPart(upload: Upload, parts: seq<PartReference>, length: nat)
    requires parts != []
  {
    var last := parts[|parts| - 1];
    last.partNumber == |parts| && ListedPart(upload, last) && |upload.parts[last.partNumber].body| == length
  }

  ghost predicate AllAccounted(b: Bucket, r: StagedMultipart, pending: seq<byte>) {
    && Present(b, r)
    && (forall i | 0 <= i < |r.parts| :: ListedPart(b.uploads[r.uploadId], r.parts[i]))
    && Assembled(b.uploads[r.uploadId], r.parts) + Flatten(r.buffers) + pending == r.hashed
  }

  /** A last part that is full leaves only full parts. */
  lemma ExtendedByFullPart(c: Configuration, b: Bucket, r: StagedMultipart, pending: seq<byte>)
    requires Extended(c, b, r, c.multipartPartSizeBytes) && AllAccounted(b, r, pending)
    ensures Accounts(c, b, r, pending)
  {
    forall i | 0 <= i < |r.parts| ensures
        && r.parts[i].partNumber == i + 1
        && ListedPart(b.uploads[r.uploadId], r.parts[i])
        && |b.uploads[r.uploadId].parts[r.parts[i].partNumber].body| == c.multipartPartSizeBytes
    {
      if i < |r.parts| - 1 {
        assert r.parts[i] == r.parts[..|r.parts| - 1][i];
      }
    }
  }

  lemma ChangesOnlyTransitive(a: Bucket, b: Bucket, d: Bucket, uploadId: nat)
    requires ChangesOnly(a, b, uploadId) && ChangesOnly(b, d, uploadId)
    ensures ChangesOnly(a, d, uploadId)
  {
  }

  lemma BufferedAccounts(c: Configuration, b: Bucket, r: StagedMultipart, content: seq<byte>, size: nat)
    requires Accounts(c, b, r, content) && size <= |content|
    ensures Accounts(c, b, Buffered(r, content[..size]), content[size..])
  {
    FlattenAppend(r.buffers, content[..size]);
    assert content == content[..size] + content[size..];
    if Present(b, r) {
      var assembled := Assembled(b.uploads[r.uploadId], r.parts);
      assert assembled + Flatten(r.buffers) + content
          == assembled + (Flatten(r.buffers) + content[..size]) + content[size..];
    }
  }

  /** There is room for one more full part while the bytes hashed fit into the maximal number of parts. */
  lemma RoomForPart(c: Configuration, b: Bucket, r: StagedMultipart, pending: seq<byte>)
    requires Accounts(c, b, r, pending) && Present(b, r) && r.bufferedBytes > 0
    requires |r.hashed| <= Store.MAXIMUM_PARTS * c.multipartPartSizeBytes
    ensures |r.parts| < Store.MAXIMUM_PARTS
  {
    var size := c.multipartPartSizeBytes;
    AssembledLength(b.uploads[r.uploadId], r.parts, size);
  }

  lemma TimesMonotone(m: nat, n: nat, size: nat)
    requires m <= n
    ensures m * size <= n * size
  {
  }

  /** What sending bytes of this record does, whatever requests fail; without faults it cannot fail. */
  ghost predicate SendsSoundly(
      c: Configuration, b: Bucket, r: StagedMultipart, sent: (Bucket, StagedMultipart, Option<Failure>))
  {
    && ChangesOnly(b, sent.0, r.uploadId)
    && SameStaging(r, sent.1)
    && (sent.2.None? ==> Accounts(c, sent.0, sent.1, []))
    && (b.faults == [] && Present(b, r) && |r.hashed| <= Store.MAXIMUM_PARTS * c.multipartPartSizeBytes ==>
          sent.2.None? && Present(sent.0, sent.1))
  }

  lemma SendsSoundlyFromBuffered(
      c: Configuration, b: Bucket, r: StagedMultipart, s: StagedMultipart,
      sent: (Bucket, StagedMultipart, Option<Failure>))
    requires SameStaging(r, s) && SendsSoundly(c, b, s, sent)
    ensures SendsSoundly(c, b, r, sent)
  {
    hide Accounts, ChangesOnly;
    assert r.uploadId == s.uploadId && r.key == s.key && r.hashed == s.hashed;
  }

  /** The loop of `append` keeps the account. */
  lemma {:induction false} FillPartsAccounts(c: Configuration, b: Bucket, r: StagedMultipart, content: seq<byte>)
    requires Accounts(c, b, r, content) && r.bufferedBytes < c.multipartPartSizeBytes
    ensures SendsSoundly(c, b, r, FillParts(c, b, r, content))
    decreases |content|, 0
  {
    hide Accounts, ChangesOnly, SendsSoundly, Counted;
    AccountsCounted(c, b, r, content);
    if content == [] {
      NothingToSend(c, b, r);
    } else {
      var size := JsNumbers.Min(c.multipartPartSizeBytes - r.bufferedBytes, |content|);
      var filled := Buffered(r, content[..size]);
      BufferedAccounts(c, b, r, content, size);
      if filled.bufferedBytes == c.multipartPartSizeBytes {
        FillPartsUploads(c, b, filled, content[size..]);
      } else {
        FillPartsAccounts(c, b, filled, content[size..]);
      }
      SendsSoundlyFromBuffered(c, b, r, filled, FillParts(c, b, r, content));
    }
  }

  lemma AccountsCounted(c: Configuration, b: Bucket, r: StagedMultipart, content: seq<byte>)
    requires Accounts(c, b, r, content)
    ensures Counted(r)
  {
  }

  lemma NothingToSend(c: Configuration, b: Bucket, r: StagedMultipart)
    requires Accounts(c, b, r, [])
    ensures SendsSoundly(c, b, r, (b, r, None))
  {
  }

  lemma {:induction false} FillPartsUploads(c: Configuration, b: Bucket, filled: StagedMultipart, rest: seq<byte>)
    requires Accounts(c, b, filled, rest) && filled.bufferedBytes == c.multipartPartSizeBytes > 0
    ensures var (bucket, uploaded, failed) := UploadBuffered(b, filled, c.multipartPartSizeBytes);
      SendsSoundly(c, b, filled,
                   if failed.Some? then (bucket, uploaded, failed) else FillParts(c, bucket, uploaded, rest))
    decreases |rest|, 1
  {
    var (bucket, uploaded, failed) := UploadBuffered(b, filled, c.multipartPartSizeBytes);
    UploadBufferedChanges(b, filled, c.multipartPartSizeBytes);
    UploadBufferedAccounts(c, b, filled, c.multipartPartSizeBytes, rest);
    if b.faults == [] && Present(b, filled) && |filled.hashed| <= Store.MAXIMUM_PARTS * c.multipartPartSizeBytes {
      RoomForPart(c, b, filled, rest);
    }
    if failed.None? {
      ExtendedByFullPart(c, bucket, uploaded, rest);
      FillPartsAccounts(c, bucket, uploaded, rest);
      ChangesOnlyTransitive(b, bucket, FillParts(c, bucket, uploaded, rest).0, filled.uploadId);
    }
  }

  // ----- committing

  /** Nothing is buffered any more: the uploaded parts are all the bytes, and the store will take them. */
  ghost predicate Flushed(b: Bucket, r: StagedMultipart) {
    && r.uploadId < b.serial
    && (Present(b, r) ==>
          && (forall i | 0 <= i < |r.parts| :: ListedPart(b.uploads[r.uploadId], r.parts[i]))
          && (r.parts != [] ==> Completable(b.uploads[r.uploadId], r.parts))
          && Assembled(b.uploads[r.uploadId], r.parts) == r.hashed)
  }

  lemma FullPartsAreCompletable(c: Configuration, upload: Upload, parts: seq<PartReference>, length: nat)
    requires ValidConfiguration(c) && parts != []
    requires FullParts(upload, parts[..|parts| - 1], c.multipartPartSizeBytes) && LastPart(upload, parts, length)
    ensures Completable(upload, parts)
  {
    forall i | 0 <= i < |parts|
      ensures ListedPart(upload, parts[i]) && parts[i].partNumber == i + 1
      ensures i < |parts| - 1 ==> |upload.parts[parts[i].partNumber].body| >= Store.MINIMUM_PART_BYTES
    {
      if i < |parts| - 1 {
        assert parts[i] == parts[..|parts| - 1][i];
      }
    }
  }

  /** What uploading the rest does, whatever requests fail; without faults it cannot fail. */
  ghost predicate FlushesSoundly(
      c: Configuration, b: Bucket, r: StagedMultipart, outcome: (Bucket, StagedMultipart, Option<Failure>))
  {
    && ChangesOnly(b, outcome.0, r.uploadId)
    && SameStaging(r, outcome.1)
    && (outcome.2.None? ==> Flushed(outcome.0, outcome.1))
    && (b.faults == [] && Present(b, r) && |r.hashed| <= Store.MAXIMUM_PARTS * c.multipartPartSizeBytes ==>
          outcome.2.None? && Present(outcome.0, outcome.1))
  }

  lemma FlushesBuffers(c: Configuration, b: Bucket, r: StagedMultipart)
    requires ValidConfiguration(c) && Accounts(c, b, r, []) && r.bufferedBytes > 0
    ensures FlushesSoundly(c, b, r, UploadBuffered(b, r, r.bufferedBytes))
  {
    hide Take, Completable;
    var (after, s, failure) := UploadBuffered(b, r, r.bufferedBytes);
    UploadBufferedChanges(b, r, r.bufferedBytes);
    UploadBufferedAccounts(c, b, r, r.bufferedBytes, []);
    hide UploadBuffered, UploadPart, ChangesOnly;
    if b.faults == [] && Present(b, r) && |r.hashed| <= Store.MAXIMUM_PARTS * c.multipartPartSizeBytes {
      RoomForPart(c, b, r, []);
    }
    if failure.None? {
      FullPartsAreCompletable(c, after.uploads[s.uploadId], s.parts, r.bufferedBytes);
      assert Flatten(s.buffers) == [];
    }
  }

  lemma FlushesNothing(c: Configuration, b: Bucket, r: StagedMultipart)
    requires ValidConfiguration(c) && Accounts(c, b, r, []) && r.bufferedBytes == 0
    ensures FlushesSoundly(c, b, r, (b, r, None))
  {
    assert Flatten(r.buffers) == [];
    if Present(b, r) && r.parts != [] {
      var upload, n := b.uploads[r.uploadId], |r.parts| - 1;
      assert ListedPart(upload, r.parts[n]);
      FullPartsAreCompletable(c, upload, r.parts, c.multipartPartSizeBytes);
    }
  }

  lemma FlushAccounts(c: Configuration, b: Bucket, r: StagedMultipart)
    requires ValidConfiguration(c) && Accounts(c, b, r, [])
    ensures FlushesSoundly(c, b, r, Flush(b, r))
  {
    if r.bufferedBytes > 0 {
      FlushesBuffers(c, b, r);
    } else {
      FlushesNothing(c, b, r);
    }
    hide FlushesSoundly;
  }

  /** What a commit may do to the bucket: its upload, its staging object, and the content that the key names. */
  ghost predicate StoresOnly(b: Bucket, after: Bucket, r: StagedMultipart, targetKey: string) {
    && TouchesUpload(b, after, r.uploadId)
    && (forall k | k != r.key && k != targetKey :: k in after.objects <==> k in b.objects)
    && (forall k | k != r.key && k != targetKey && k in b.objects :: after.objects[k] == b.objects[k])
    && (targetKey in b.objects ==> targetKey in after.objects)
    && (targetKey in after.objects ==>
          after.objects[targetKey] == r.hashed
          || (targetKey in b.objects && after.objects[targetKey] == b.objects[targetKey]))
  }

  /** A commit that went through has stored the bytes, and left no staging object behind. */
  ghost predicate Moved(b: Bucket, after: Bucket, r: StagedMultipart, targetKey: string) {
    && targetKey in after.objects && after.objects[targetKey] == r.hashed
    && (r.key in after.objects ==> r.key in b.objects)
  }

  lemma StoreEmptyStores(b: Bucket, r: StagedMultipart, targetKey: string)
    requires Flushed(b, r) && targetKey != r.key && r.parts == []
    ensures var (after, s, failure) := StoreEmpty(b, r, targetKey);
      && StoresOnly(b, after, r, targetKey)
      && (failure.None? ==> Moved(b, after, r, targetKey))
      && (b.faults == [] && Present(b, r) ==> failure.None?)
  {
    hide AbortMultipart, PutObject, Completable;
    AbortTouches(b, r.key, r.uploadId);
    PutStores(AbortMultipart(b, r.key, r.uploadId).0, targetKey, []);
    assert AbortMultipart(b, r.key, r.uploadId).1.Some? ==> Present(b, r) && r.hashed == [];
    var (after, s, failure) := StoreEmpty(b, r, targetKey);
    assert failure.None? ==> AbortMultipart(b, r.key, r.uploadId).1.Some?;
    assert failure.None? ==> PutObject(AbortMultipart(b, r.key, r.uploadId).0, targetKey, [], false).1.Some?;
  }

  lemma AbortTouches(b: Bucket, key: string, uploadId: nat)
    ensures var (after, done) := AbortMultipart(b, key, uploadId);
      && TouchesUpload(b, after, uploadId) && after.objects == b.objects
      && (done.Some? ==> uploadId in b.uploads && b.uploads[uploadId].key == key && uploadId !in after.uploads)
      && (b.faults == [] && uploadId in b.uploads && b.uploads[uploadId].key == key ==> done.Some?)
  {
  }

  lemma PutStores(b: Bucket, key: string, body: seq<byte>)
    ensures var (after, done) := PutObject(b, key, body, false);
      && after.uploads == b.uploads && after.serial == b.serial
      && (after.objects == b.objects || after.objects == b.objects[key := body])
      && (done.Some? ==> after.objects == b.objects[key := body])
      && (b.faults == [] ==> after.faults == [] && done.Some?)
  {
  }

  /** The staging object has just been assembled from the upload, which is gone. */
  ghost predicate CompletedFrom(b: Bucket, assembled: Bucket, r: StagedMultipart) {
    && b.serial <= assembled.serial
    && (b.faults == [] ==> assembled.faults == [])
    && assembled.uploads == b.uploads - {r.uploadId}
    && assembled.objects == b.objects[r.key := r.hashed]
  }

  lemma MoveObjectStores(b: Bucket, assembled: Bucket, r: StagedMultipart, targetKey: string)
    requires CompletedFrom(b, assembled, r) && targetKey != r.key
    ensures var (after, s, failure) := MoveObject(assembled, r, targetKey);
      && StoresOnly(b, after, r, targetKey)
      && (failure.None? ==> Moved(b, after, r, targetKey))
      && (b.faults == [] ==> failure.None?)
  {
    hide CopyObject, DeleteObject;
    CopyStores(assembled, r.key, targetKey);
    DeleteRemoves(CopyObject(assembled, r.key, targetKey).0, r.key);
    var (after, s, failure) := MoveObject(assembled, r, targetKey);
    assert failure.None? ==> CopyObject(assembled, r.key, targetKey).1.Some?;
    assert failure.None? ==> DeleteObject(CopyObject(assembled, r.key, targetKey).0, r.key).1.Some?;
  }

  lemma CopyStores(b: Bucket, sourceKey: string, targetKey: string)
    requires sourceKey in b.objects
    ensures var (after, done) := CopyObject(b, sourceKey, targetKey);
      && after.uploads == b.uploads && after.serial == b.serial
      && (after.objects == b.objects || after.objects == b.objects[targetKey := b.objects[sourceKey]])
      && (done.Some? ==> after.objects == b.objects[targetKey := b.objects[sourceKey]])
      && (b.faults == [] ==> after.faults == [] && done.Some?)
  {
  }

  lemma DeleteRemoves(b: Bucket, key: string)
    ensures var (after, done) := DeleteObject(b, key);
      && after.uploads == b.uploads && after.serial == b.serial
      && (after.objects == b.objects || after.objects == b.objects - {key})
      && (done.Some? ==> after.objects == b.objects - {key})
      && (b.faults == [] ==> after.faults == [] && done.Some?)
  {
  }

  lemma StorePartsStores(b: Bucket, r: StagedMultipart, targetKey: string)
    requires Flushed(b, r) && targetKey != r.key
    ensures var (after, s, failure) := StoreParts(b, r, targetKey);
      && StoresOnly(b, after, r, targetKey)
      && (failure.None? ==> Moved(b, after, r, targetKey))
      && (b.faults == [] && Present(b, r) ==> failure.None?)
  {
    hide Completable;
    if r.parts == [] {
      StoreEmptyStores(b, r, targetKey);
    } else {
      var (assembled, completeDone) := CompleteMultipart(b, r.key, r.uploadId, r.parts);
      if completeDone.Some? {
        var complete := r.(completed := true);
        assert CompletedFrom(b, assembled, complete);
        MoveObjectStores(b, assembled, complete, targetKey);
        hide MoveObject;
      }
    }
  }

  /** A commit stores exactly the bytes received under the content key, or nothing there. */
  lemma StoreContentStores(c: Configuration, b: Bucket, r: StagedMultipart, targetKey: string)
    requires ValidConfiguration(c) && Accounts(c, b, r, []) && targetKey != r.key
    ensures var (after, s, failure) := StoreContent(b, r, targetKey);
      && StoresOnly(b, after, r, targetKey)
      && (failure.None? ==> Moved(b, after, r, targetKey))
      && (b.faults == [] && Present(b, r) && |r.hashed| <= Store.MAXIMUM_PARTS * c.multipartPartSizeBytes ==>
            failure.None?)
  {
    FlushAccounts(c, b, r);
    var (flushed, full, failure) := Flush(b, r);
    if failure.None? {
      StorePartsStores(flushed, full, targetKey);
    }
  }
}
