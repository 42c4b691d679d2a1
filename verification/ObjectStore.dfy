/**
 * The object store behind the S3 transport: what each request does to the bucket, and a script of the faults
 * that the requests meet.
 */
module ObjectStore {
  import opened Wrappers
  import opened Utf8

  const MAXIMUM_PARTS := 10_000
  const MINIMUM_PART_BYTES := 5 * 1024 * 1024

  /** A request works, is lost before it takes effect, or takes effect while its response is lost. */
  datatype Fault = Works | LostRequest | LostResponse

  datatype Part = Part(eTag: nat, body: seq<byte>)

  /** A part number and the entity tag that the store returned for it. */
  datatype PartReference = PartReference(partNumber: nat, eTag: nat)

  datatype Upload = Upload(key: string, parts: map<nat, Part>)

  /** `serial` numbers uploads and entity tags; `faults` is consumed by the coming requests. */
  datatype Bucket = Bucket(
    objects: map<string, seq<byte>>,
    uploads: map<nat, Upload>,
    serial: nat,
    faults: seq<Fault>
  )

  function NextFault(b: Bucket): Fault {
    if b.faults == [] then Works else b.faults[0]
  }

  /** The bucket with one fault consumed. */
  function Requested(b: Bucket): Bucket {
    if b.faults == [] then b else b.(faults := b.faults[1..])
  }

  /** The outcome of a request whose effect is `after` and whose response is `response`. */
  function Deliver<T>(fault: Fault, before: Bucket, after: Bucket, response: T): (Bucket, Option<T>) {
    match fault
    case Works => (after, Some(response))
    case LostRequest => (before, None)
    case LostResponse => (after, None)
  }

  function CreateMultipart(b: Bucket, key: string): (Bucket, Option<nat>) {
    var before := Requested(b);
    Deliver(NextFault(b), before,
            before.(uploads := before.uploads[b.serial := Upload(key, map[])], serial := b.serial + 1),
            b.serial)
  }

  function UploadPart(b: Bucket, key: string, uploadId: nat, partNumber: nat, body: seq<byte>): (Bucket, Option<nat>) {
    var before := Requested(b);
    if uploadId !in b.uploads || b.uploads[uploadId].key != key || !(1 <= partNumber <= MAXIMUM_PARTS) then
      (before, None)
    else
      var upload := b.uploads[uploadId];
      var stored := upload.(parts := upload.parts[partNumber := Part(b.serial, body)]);
      Deliver(NextFault(b), before,
              before.(uploads := before.uploads[uploadId := stored], serial := b.serial + 1),
              b.serial)
  }

  /** Every listed part is stored under its tag, numbers ascend, and all parts but the last are large enough. */
  predicate Completable(upload: Upload, parts: seq<PartReference>) {
    && parts != []
    && (forall i | 0 <= i < |parts| :: ListedPart(upload, parts[i]))
    && (forall i | 0 < i < |parts| :: parts[i - 1].partNumber < parts[i].partNumber)
    && (forall i | 0 <= i < |parts| - 1 :: |upload.parts[parts[i].partNumber].body| >= MINIMUM_PART_BYTES)
  }

  predicate ListedPart(upload: Upload, p: PartReference) {
    p.partNumber in upload.parts && upload.parts[p.partNumber].eTag == p.eTag
  }

  function Assembled(upload: Upload, parts: seq<PartReference>): seq<byte>
    requires forall i | 0 <= i < |parts| :: ListedPart(upload, parts[i])
  {
    if parts == [] then []
    else
      assert ListedPart(upload, parts[|parts| - 1]);
      Assembled(upload, parts[..|parts| - 1]) + upload.parts[parts[|parts| - 1].partNumber].body
  }

  function CompleteMultipart(b: Bucket, key: string, uploadId: nat, parts: seq<PartReference>): (Bucket, Option<()>) {
    var before := Requested(b);
    if uploadId !in b.uploads || b.uploads[uploadId].key != key || !Completable(b.uploads[uploadId], parts) then
      (before, None)
    else
      Deliver(NextFault(b), before,
              before.(objects := before.objects[key := Assembled(b.uploads[uploadId], parts)],
                      uploads := before.uploads - {uploadId}),
              ())
  }

  function AbortMultipart(b: Bucket, key: string, uploadId: nat): (Bucket, Option<()>) {
    var before := Requested(b);
    if uploadId !in b.uploads || b.uploads[uploadId].key != key then (before, None)
    else Deliver(NextFault(b), before, before.(uploads := before.uploads - {uploadId}), ())
  }

  /** `ifAbsent` is the `If-None-Match: *` condition of section 13.1.2 of RFC 9110. */
  function PutObject(b: Bucket, key: string, body: seq<byte>, ifAbsent: bool): (Bucket, Option<()>) {
    var before := Requested(b);
    if ifAbsent && key in b.objects then (before, None)
    else Deliver(NextFault(b), before, before.(objects := before.objects[key := body]), ())
  }

  function CopyObject(b: Bucket, sourceKey: string, targetKey: string): (Bucket, Option<()>) {
    var before := Requested(b);
    if sourceKey !in b.objects then (before, None)
    else Deliver(NextFault(b), before, before.(objects := before.objects[targetKey := b.objects[sourceKey]]), ())
  }

  function DeleteObject(b: Bucket, key: string): (Bucket, Option<()>) {
    var before := Requested(b);
    Deliver(NextFault(b), before, before.(objects := before.objects - {key}), ())
  }

  function GetObject(b: Bucket, key: string): (Bucket, Option<seq<byte>>) {
    var before := Requested(b);
    if key !in b.objects then (before, None) else Deliver(NextFault(b), before, before, b.objects[key])
  }

  /** A listing changes nothing; the caller's own view of what it returned is a parameter of the cleanup. */
  function List(b: Bucket): (Bucket, Option<()>) {
    var before := Requested(b);
    Deliver(NextFault(b), before, before, ())
  }
}
