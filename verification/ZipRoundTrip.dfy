/**
 * A ZIP writer in the layout of PKWARE's APPNOTE.TXT (sections 4.3.7, 4.3.12 and 4.3.16), and the proof
 * that the reader undoes it.
 */
module ZipRoundTrip {
  import opened JsNumbers
  import opened Utf8
  import opened Wrappers
  import opened ZipReader

  /** The fields of a central record that the reader never looks at. */
  datatype Stamp = Stamp(
    madeBy: nat, needed: nat, time: nat, date: nat, crc32: nat, internalAttributes: nat, externalAttributes: nat
  )

  /**
   * What the local header says and the reader does not believe: a streaming writer leaves checksum and sizes zero and
   * appends a descriptor to the body. Of the name only the length matters.
   */
  datatype LocalStamp = LocalStamp(
    needed: nat, time: nat, date: nat, crc32: nat, compressedBytes: nat, expandedBytes: nat, name: seq<byte>,
    descriptor: seq<byte>
  )

  datatype File = File(
    name: seq<byte>,
    data: seq<byte>,
    stored: bool,
    flags: nat,
    localExtra: seq<byte>,
    centralExtra: seq<byte>,
    comment: seq<byte>,
    stamp: Stamp,
    local: LocalStamp
  )

  function Compression(f: File): nat {
    if f.stored then 0 else 8
  }

  function Body(f: File, codec: Codec): seq<byte> {
    if f.stored then f.data else codec.deflate(f.data)
  }

  /** `inflate` undoes `deflate` whenever the limit leaves room for the data. */
  ghost predicate Undoes(codec: Codec) {
    forall data, limit: nat :: |data| <= limit ==> codec.inflate(codec.deflate(data), limit) == Some(data)
  }

  // ----- the writer

  /** Byte `k` of a little-endian number. */
  function Lo(n: nat): byte { n % 0x100 }
  function Hi(n: nat): byte { n / 0x100 % 0x100 }
  function Third(n: nat): byte { n / 0x1_0000 % 0x100 }
  function Fourth(n: nat): byte { n / 0x100_0000 % 0x100 }

  function U16(n: nat): (r: seq<byte>)
    ensures |r| == 2
  {
    [Lo(n), Hi(n)]
  }

  function U32(n: nat): (r: seq<byte>)
    ensures |r| == 4
  {
    [Lo(n), Hi(n), Third(n), Fourth(n)]
  }

  /** The ten and fourteen bytes that local and central headers share. */
  function MethodFields(f: File, needed: nat, time: nat, date: nat): (r: seq<byte>)
    ensures |r| == 10
  {
    U16(needed) + U16(f.flags) + U16(Compression(f)) + (U16(time) + U16(date))
  }

  function SizeFields(crc32: nat, compressedBytes: nat, expandedBytes: nat, nameBytes: nat): (r: seq<byte>)
    ensures |r| == 14
  {
    U32(crc32) + U32(compressedBytes) + U32(expandedBytes) + U16(nameBytes)
  }

  function CentralSizes(f: File, codec: Codec): (r: seq<byte>)
    ensures |r| == 14
  {
    SizeFields(f.stamp.crc32, |Body(f, codec)|, |f.data|, |f.name|)
  }

  function LocalSizes(f: File): (r: seq<byte>)
    ensures |r| == 14
  {
    SizeFields(f.local.crc32, f.local.compressedBytes, f.local.expandedBytes, |f.local.name|)
  }

  function LocalHeader(f: File): (h: seq<byte>)
    ensures |h| == LOCAL_HEADER_BYTES
  {
    U32(LOCAL_FILE_HEADER_SIGNATURE) + MethodFields(f, f.local.needed, f.local.time, f.local.date) + LocalSizes(f)
    + U16(|f.localExtra|)
  }

  function LocalRecord(f: File, codec: Codec): (r: seq<byte>)
    ensures |r| >= LOCAL_HEADER_BYTES
  {
    LocalHeader(f) + (f.local.name + f.localExtra + Body(f, codec) + f.local.descriptor)
  }

  function TrailerFields(f: File, offset: nat): (r: seq<byte>)
    ensures |r| == 16
  {
    U16(|f.centralExtra|) + U16(|f.comment|)
    + (U16(0) + U16(f.stamp.internalAttributes) + U32(f.stamp.externalAttributes))
    + U32(offset)
  }

  function CentralHeader(f: File, codec: Codec, offset: nat): (h: seq<byte>)
    ensures |h| == CENTRAL_RECORD_BYTES
  {
    U32(CENTRAL_DIRECTORY_SIGNATURE) + U16(f.stamp.madeBy)
    + MethodFields(f, f.stamp.needed, f.stamp.time, f.stamp.date) + CentralSizes(f, codec) + TrailerFields(f, offset)
  }

  function CentralRecord(f: File, codec: Codec, offset: nat): seq<byte> {
    CentralHeader(f, codec, offset) + (f.name + f.centralExtra + f.comment)
  }

  function Locals(files: seq<File>, codec: Codec): seq<byte> {
    if files == [] then [] else LocalRecord(files[0], codec) + Locals(files[1..], codec)
  }

  /** The central directory of `files` when the first local record lies at `offset`. */
  function Central(files: seq<File>, codec: Codec, offset: nat): seq<byte> {
    if files == [] then []
    else CentralRecord(files[0], codec, offset)
         + Central(files[1..], codec, offset + |LocalRecord(files[0], codec)|)
  }

  function EndRecord(count: nat, centralBytes: nat, centralOffset: nat, comment: seq<byte>): (r: seq<byte>)
    ensures |r| == END_RECORD_BYTES + |comment|
  {
    U32(END_OF_CENTRAL_DIRECTORY_SIGNATURE)
    + (U16(0) + U16(0) + U16(count) + U16(count))
    + (U32(centralBytes) + U32(centralOffset))
    + (U16(|comment|) + comment)
  }

  function Archive(files: seq<File>, codec: Codec, comment: seq<byte>): seq<byte> {
    var locals := Locals(files, codec);
    var central := Central(files, codec, 0);
    locals + central + EndRecord(|files|, |central|, |locals|, comment)
  }

  /** Every length and number of a file fits its field. */
  predicate FieldsFit(f: File, codec: Codec) {
    && f.flags < 0x1_0000
    && |f.name| < 0x1_0000 && |f.local.name| < 0x1_0000 && |f.comment| < 0x1_0000
    && |f.localExtra| < 0x1_0000 && |f.centralExtra| < 0x1_0000
    && |f.data| < TWO_32 && |Body(f, codec)| < TWO_32
  }

  /** What the format can express without its ZIP64 extensions. */
  predicate Expressible(files: seq<File>, codec: Codec, comment: seq<byte>) {
    && |files| < 0xffff
    && (forall f | f in files :: FieldsFit(f, codec))
    && |Locals(files, codec)| < 0xffff_ffff
    && |Central(files, codec, 0)| < 0xffff_ffff
    && |comment| < 0x1_0000
  }

  // ----- what the reader should return

  function EntryOf(f: File, codec: Codec, offset: nat): Option<Entry> {
    var path :- Decode(f.name);
    Some(Entry(path, f.flags, Compression(f), |Body(f, codec)|, |f.data|, offset))
  }

  function EntriesOf(files: seq<File>, codec: Codec, offset: nat): Option<seq<Entry>> {
    if files == [] then Some([])
    else
      var entry :- EntryOf(files[0], codec, offset);
      Prepend([entry], EntriesOf(files[1..], codec, offset + |LocalRecord(files[0], codec)|))
  }

  // ----- reading back one record

  /** `part` lies in `bytes` at `offset`. */
  ghost predicate Holds(bytes: seq<byte>, offset: nat, part: seq<byte>) {
    InRange(bytes, offset, |part|) && bytes[offset..offset + |part|] == part
  }

  lemma HoldsParts(bytes: seq<byte>, offset: nat, left: seq<byte>, right: seq<byte>)
    requires Holds(bytes, offset, left + right)
    ensures Holds(bytes, offset, left)
    ensures Holds(bytes, offset + |left|, right)
  {
    var whole := left + right;
    assert bytes[offset..offset + |left|] == bytes[offset..offset + |whole|][..|left|] == left;
    assert bytes[offset + |left|..offset + |whole|] == bytes[offset..offset + |whole|][|left|..] == right;
  }

  lemma HeldU16(bytes: seq<byte>, offset: nat, n: nat)
    requires Holds(bytes, offset, U16(n)) && n < 0x1_0000
    ensures Word16(bytes, offset) == n
  {
    var part := bytes[offset..offset + 2];
    assert bytes[offset] == part[0] && bytes[offset + 1] == part[1];
  }

  lemma FourDigits(n: nat)
    requires n < TWO_32
    ensures n == Lo(n) as int + 0x100 * Hi(n) as int + 0x1_0000 * Third(n) as int + 0x100_0000 * Fourth(n) as int
  {
    var a, b, c := n / 0x100, n / 0x1_0000, n / 0x100_0000;
    assert b == a / 0x100 && c == b / 0x100;
  }

  lemma HeldU32(bytes: seq<byte>, offset: nat, n: nat)
    requires Holds(bytes, offset, U32(n)) && n < TWO_32
    ensures Word32(bytes, offset) == n
  {
    FourDigits(n);
    hide Lo, Hi, Third, Fourth;
    var part := bytes[offset..offset + 4];
    assert bytes[offset] == part[0] && bytes[offset + 1] == part[1];
    assert bytes[offset + 2] == part[2] && bytes[offset + 3] == part[3];
  }

  lemma MethodFieldsHeld(
      bytes: seq<byte>, at: nat, f: File, codec: Codec, stampNeeded: nat, stampTime: nat, stampDate: nat)
    requires FieldsFit(f, codec)
    requires Holds(bytes, at, MethodFields(f, stampNeeded, stampTime, stampDate))
    ensures Word16(bytes, at + 2) == f.flags
    ensures Word16(bytes, at + 4) == Compression(f)
  {
    var needed, flags, compression := U16(stampNeeded), U16(f.flags), U16(Compression(f));
    var rest := U16(stampTime) + U16(stampDate);
    HoldsParts(bytes, at, needed + flags + compression, rest);
    HoldsParts(bytes, at, needed + flags, compression);
    HoldsParts(bytes, at, needed, flags);
    HeldU16(bytes, at + 2, f.flags);
    HeldU16(bytes, at + 4, Compression(f));
  }

  lemma SizeFieldsHeld(
      bytes: seq<byte>, at: nat, crc32: nat, compressedBytes: nat, expandedBytes: nat, nameBytes: nat)
    requires nameBytes < 0x1_0000
    requires Holds(bytes, at, SizeFields(crc32, compressedBytes, expandedBytes, nameBytes))
    ensures compressedBytes < TWO_32 ==> Word32(bytes, at + 4) == compressedBytes
    ensures expandedBytes < TWO_32 ==> Word32(bytes, at + 8) == expandedBytes
    ensures Word16(bytes, at + 12) == nameBytes
  {
    var crc, packed, plain, name := U32(crc32), U32(compressedBytes), U32(expandedBytes), U16(nameBytes);
    HoldsParts(bytes, at, crc + packed + plain, name);
    HoldsParts(bytes, at, crc + packed, plain);
    HoldsParts(bytes, at, crc, packed);
    if compressedBytes < TWO_32 {
      HeldU32(bytes, at + 4, compressedBytes);
    }
    if expandedBytes < TWO_32 {
      HeldU32(bytes, at + 8, expandedBytes);
    }
    HeldU16(bytes, at + 12, nameBytes);
  }

  lemma TrailerFieldsHeld(bytes: seq<byte>, at: nat, f: File, codec: Codec, offset: nat)
    requires FieldsFit(f, codec) && offset < TWO_32
    requires Holds(bytes, at, TrailerFields(f, offset))
    ensures Word16(bytes, at) == |f.centralExtra|
    ensures Word16(bytes, at + 2) == |f.comment|
    ensures Word32(bytes, at + 12) == offset
  {
    var extra, comment := U16(|f.centralExtra|), U16(|f.comment|);
    var attributes := U16(0) + U16(f.stamp.internalAttributes) + U32(f.stamp.externalAttributes);
    HoldsParts(bytes, at, extra + comment + attributes, U32(offset));
    HoldsParts(bytes, at, extra + comment, attributes);
    HoldsParts(bytes, at, extra, comment);
    HeldU16(bytes, at, |f.centralExtra|);
    HeldU16(bytes, at + 2, |f.comment|);
    HeldU32(bytes, at + 12, offset);
  }

  lemma CentralHeaderHeld(bytes: seq<byte>, at: nat, f: File, codec: Codec, offset: nat)
    requires Holds(bytes, at, CentralHeader(f, codec, offset))
    requires FieldsFit(f, codec) && offset < TWO_32
    ensures Word32(bytes, at) == CENTRAL_DIRECTORY_SIGNATURE
    ensures Word16(bytes, at + 8) == f.flags
    ensures Word16(bytes, at + 10) == Compression(f)
    ensures Word32(bytes, at + 20) == |Body(f, codec)|
    ensures Word32(bytes, at + 24) == |f.data|
    ensures Word16(bytes, at + 28) == |f.name|
    ensures Word16(bytes, at + 30) == |f.centralExtra|
    ensures Word16(bytes, at + 32) == |f.comment|
    ensures Word32(bytes, at + 42) == offset
  {
    var signature, madeBy := U32(CENTRAL_DIRECTORY_SIGNATURE), U16(f.stamp.madeBy);
    var method_ := MethodFields(f, f.stamp.needed, f.stamp.time, f.stamp.date);
    var sizes, trailer := CentralSizes(f, codec), TrailerFields(f, offset);
    HoldsParts(bytes, at, signature + madeBy + method_ + sizes, trailer);
    HoldsParts(bytes, at, signature + madeBy + method_, sizes);
    HoldsParts(bytes, at, signature + madeBy, method_);
    HoldsParts(bytes, at, signature, madeBy);
    HeldU32(bytes, at, CENTRAL_DIRECTORY_SIGNATURE);
    MethodFieldsHeld(bytes, at + 6, f, codec, f.stamp.needed, f.stamp.time, f.stamp.date);
    SizeFieldsHeld(bytes, at + 16, f.stamp.crc32, |Body(f, codec)|, |f.data|, |f.name|);
    TrailerFieldsHeld(bytes, at + 30, f, codec, offset);
  }

  lemma LocalHeaderHeld(bytes: seq<byte>, at: nat, f: File, codec: Codec)
    requires Holds(bytes, at, LocalHeader(f))
    requires FieldsFit(f, codec)
    ensures Word32(bytes, at) == LOCAL_FILE_HEADER_SIGNATURE
    ensures Word16(bytes, at + 6) == f.flags
    ensures Word16(bytes, at + 8) == Compression(f)
    ensures Word16(bytes, at + 26) == |f.local.name|
    ensures Word16(bytes, at + 28) == |f.localExtra|
  {
    var signature, extra := U32(LOCAL_FILE_HEADER_SIGNATURE), U16(|f.localExtra|);
    var method_, sizes := MethodFields(f, f.local.needed, f.local.time, f.local.date), LocalSizes(f);
    HoldsParts(bytes, at, signature + method_ + sizes, extra);
    HoldsParts(bytes, at, signature + method_, sizes);
    HoldsParts(bytes, at, signature, method_);
    HeldU32(bytes, at, LOCAL_FILE_HEADER_SIGNATURE);
    MethodFieldsHeld(bytes, at + 4, f, codec, f.local.needed, f.local.time, f.local.date);
    SizeFieldsHeld(
      bytes, at + 14, f.local.crc32, f.local.compressedBytes, f.local.expandedBytes, |f.local.name|);
    HeldU16(bytes, at + 28, |f.localExtra|);
  }

  lemma EndRecordHeld(bytes: seq<byte>, at: nat, count: nat, centralBytes: nat, centralOffset: nat, comment: seq<byte>)
    requires Holds(bytes, at, EndRecord(count, centralBytes, centralOffset, comment))
    requires count < 0xffff && centralBytes < 0xffff_ffff && centralOffset < 0xffff_ffff
    requires centralOffset + centralBytes == at
    ensures HasEndSignature(bytes, at)
    ensures DirectoryBounds(bytes, at) == Some(Bounds(count, centralOffset, at))
  {
    var signature, entries := U32(END_OF_CENTRAL_DIRECTORY_SIGNATURE), U16(0) + U16(0) + U16(count) + U16(count);
    var central, tail := U32(centralBytes) + U32(centralOffset), U16(|comment|) + comment;
    HoldsParts(bytes, at, signature + entries + central, tail);
    HoldsParts(bytes, at, signature + entries, central);
    HoldsParts(bytes, at, signature, entries);
    HoldsParts(bytes, at + 4, U16(0) + U16(0) + U16(count), U16(count));
    HoldsParts(bytes, at + 4, U16(0) + U16(0), U16(count));
    HoldsParts(bytes, at + 4, U16(0), U16(0));
    HoldsParts(bytes, at + 12, U32(centralBytes), U32(centralOffset));
    HeldU32(bytes, at, END_OF_CENTRAL_DIRECTORY_SIGNATURE);
    HeldU16(bytes, at + 4, 0);
    HeldU16(bytes, at + 6, 0);
    HeldU16(bytes, at + 8, count);
    HeldU16(bytes, at + 10, count);
    HeldU32(bytes, at + 12, centralBytes);
    HeldU32(bytes, at + 16, centralOffset);
  }

  // ----- reading back the directory

  /** The record written for `f` reads back as `f`'s entry, or fails when its name is not UTF-8. */
  lemma ReadWrittenRecord(bytes: seq<byte>, at: nat, f: File, codec: Codec, offset: nat, stop: nat)
    requires FieldsFit(f, codec) && offset < TWO_32
    requires at + |CentralRecord(f, codec, offset)| <= stop <= |bytes|
    requires Holds(bytes, at, CentralRecord(f, codec, offset))
    ensures ReadRecord(bytes, at, stop) == EntryOf(f, codec, offset)
    ensures RecordBytes(bytes, at) == |CentralRecord(f, codec, offset)|
  {
    hide Holds, Word16, Word32, Decode, CentralHeader, FieldsFit, Body;
    var header := CentralHeader(f, codec, offset);
    HoldsParts(bytes, at, header, f.name + f.centralExtra + f.comment);
    CentralHeaderHeld(bytes, at, f, codec, offset);
    NameHeld(bytes, at + |header|, f.name, f.centralExtra + f.comment);
    assert f.name + f.centralExtra + f.comment == f.name + (f.centralExtra + f.comment);
  }

  lemma NameHeld(bytes: seq<byte>, at: nat, name: seq<byte>, rest: seq<byte>)
    requires Holds(bytes, at, name + rest)
    ensures at + |name| <= |bytes| && bytes[at..at + |name|] == name
  {
    HoldsParts(bytes, at, name, rest);
  }

  /** The walk over a written directory returns the entries of its files. */
  lemma {:induction false} ReadWrittenRecords(
      bytes: seq<byte>, at: nat, files: seq<File>, codec: Codec, offset: nat, stop: nat)
    requires forall f | f in files :: FieldsFit(f, codec)
    requires offset + |Locals(files, codec)| < TWO_32
    requires at + |Central(files, codec, offset)| == stop <= |bytes|
    requires Holds(bytes, at, Central(files, codec, offset))
    ensures ReadRecords(bytes, at, |files|, stop) == EntriesOf(files, codec, offset)
    decreases |files|
  {
    hide ReadRecord, EntryOf, CentralRecord, LocalRecord, Prepend, RecordBytes, Holds, FieldsFit;
    if files != [] {
      var f, rest := files[0], files[1..];
      var record, nextOffset := CentralRecord(f, codec, offset), offset + |LocalRecord(f, codec)|;
      HoldsParts(bytes, at, record, Central(rest, codec, nextOffset));
      assert InRange(bytes, at, |record|) by {
        assert |Central(files, codec, offset)| >= |record|;
      }
      ReadWrittenRecord(bytes, at, f, codec, offset, stop);
      ReadWrittenRecords(bytes, at + |record|, rest, codec, nextOffset, stop);
    }
  }

  // ----- the archive

  function DirectoryStart(files: seq<File>, codec: Codec): nat {
    |Locals(files, codec)|
  }

  function EndOffset(files: seq<File>, codec: Codec): nat {
    |Locals(files, codec)| + |Central(files, codec, 0)|
  }

  lemma ArchiveParts(files: seq<File>, codec: Codec, comment: seq<byte>)
    ensures var bytes := Archive(files, codec, comment);
      var start, end := DirectoryStart(files, codec), EndOffset(files, codec);
      && |bytes| == end + END_RECORD_BYTES + |comment|
      && Holds(bytes, 0, Locals(files, codec))
      && Holds(bytes, start, Central(files, codec, 0))
      && Holds(bytes, end, EndRecord(|files|, end - start, start, comment))
  {
    hide Locals, Central, Holds;
    var bytes := Archive(files, codec, comment);
    var locals, central := Locals(files, codec), Central(files, codec, 0);
    var end := EndRecord(|files|, |central|, |locals|, comment);
    assert bytes == locals + central + end && |end| == END_RECORD_BYTES + |comment|;
    ThreeParts(bytes, locals, central, end);
    hide EndRecord, Archive;
  }

  lemma ThreeParts(bytes: seq<byte>, a: seq<byte>, b: seq<byte>, c: seq<byte>)
    requires bytes == a + b + c
    ensures Holds(bytes, 0, a) && Holds(bytes, |a|, b) && Holds(bytes, |a| + |b|, c)
  {
  }

  /** The comment hides no end signature behind the real end record. */
  ghost predicate EndIsLast(files: seq<File>, codec: Codec, comment: seq<byte>) {
    var bytes := Archive(files, codec, comment);
    forall later | EndOffset(files, codec) < later <= |bytes| - END_RECORD_BYTES :: !HasEndSignature(bytes, later)
  }

  /** The backward search finds the real end record exactly when the comment holds no later signature. */
  lemma WrittenEndIsFound(files: seq<File>, codec: Codec, comment: seq<byte>)
    requires Expressible(files, codec, comment)
    ensures FindEnd(Archive(files, codec, comment)) == Some(EndOffset(files, codec))
       <==> EndIsLast(files, codec, comment)
    ensures DirectoryBounds(Archive(files, codec, comment), EndOffset(files, codec))
         == Some(Bounds(|files|, DirectoryStart(files, codec), EndOffset(files, codec)))
  {
    var bytes, start, end := Archive(files, codec, comment), DirectoryStart(files, codec), EndOffset(files, codec);
    ArchiveParts(files, codec, comment);
    hide Archive, Holds, Word16, Word32, HasEndSignature, FieldsFit, Locals, Central;
    EndRecordHeld(bytes, end, |files|, end - start, start, comment);
    FoundIffLast(bytes, end);
  }

  /**
   * Reading a written archive returns the names, flags, methods, sizes and offsets that were written; it
   * fails exactly when some name is not UTF-8.
   */
  lemma DirectoryRoundTrip(files: seq<File>, codec: Codec, comment: seq<byte>)
    requires Expressible(files, codec, comment)
    requires EndIsLast(files, codec, comment)
    ensures ReadDirectory(Archive(files, codec, comment)) == EntriesOf(files, codec, 0)
  {
    ArchiveParts(files, codec, comment);
    WrittenEndIsFound(files, codec, comment);
    ReadWrittenRecords(
      Archive(files, codec, comment), DirectoryStart(files, codec), files, codec, 0, EndOffset(files, codec));
    hide Archive, FindEnd, DirectoryBounds, ReadRecords, EntriesOf, Locals, Central, EndRecord, EndIsLast, Expressible;
  }

  // ----- the file bodies

  lemma {:induction false} LocalRecordsHeld(bytes: seq<byte>, at: nat, files: seq<File>, codec: Codec, i: nat)
      returns (offset: nat)
    requires Holds(bytes, at, Locals(files, codec))
    requires i < |files|
    requires EntriesOf(files, codec, at).Some?
    ensures |EntriesOf(files, codec, at).value| == |files|
    ensures EntryOf(files[i], codec, offset) == Some(EntriesOf(files, codec, at).value[i])
    ensures Holds(bytes, offset, LocalRecord(files[i], codec))
    decreases files
  {
    hide LocalRecord, EntryOf;
    var record := LocalRecord(files[0], codec);
    HoldsParts(bytes, at, record, Locals(files[1..], codec));
    if |files| > 1 {
      var next := LocalRecordsHeld(bytes, at + |record|, files[1..], codec, if i > 0 then i - 1 else 0);
      offset := if i > 0 then next else at;
    } else {
      offset := at;
    }
  }

  lemma ExtractWritten(bytes: seq<byte>, f: File, entry: Entry, codec: Codec, offset: nat)
    requires Undoes(codec) && FieldsFit(f, codec)
    requires Holds(bytes, offset, LocalRecord(f, codec))
    requires EntryOf(f, codec, offset) == Some(entry)
    ensures ExtractedZipFile(bytes, entry, codec) == Some(f.data)
  {
    hide Holds, Word16, Word32, LocalHeader, Decode, FieldsFit;
    var header, names := LocalHeader(f), f.local.name + f.localExtra;
    HoldsParts(bytes, offset, header, names + Body(f, codec) + f.local.descriptor);
    LocalHeaderHeld(bytes, offset, f, codec);
    HoldsParts(bytes, offset + |header|, names + Body(f, codec), f.local.descriptor);
    BodyHeld(bytes, offset + |header|, names, Body(f, codec));
    SizesFit(f, codec);
  }

  lemma SizesFit(f: File, codec: Codec)
    requires FieldsFit(f, codec)
    ensures |f.data| < TWO_32 && |Body(f, codec)| < TWO_32
  {
  }

  lemma BodyHeld(bytes: seq<byte>, at: nat, names: seq<byte>, body: seq<byte>)
    requires Holds(bytes, at, names + body)
    ensures at + |names| + |body| <= |bytes| && bytes[at + |names|..at + |names| + |body|] == body
  {
    HoldsParts(bytes, at, names, body);
  }

  /** Every file of a written archive is extracted with exactly its original bytes. */
  lemma FilesRoundTrip(files: seq<File>, codec: Codec, comment: seq<byte>, i: nat)
    requires Undoes(codec)
    requires Expressible(files, codec, comment) && EndIsLast(files, codec, comment)
    requires i < |files|
    requires ReadDirectory(Archive(files, codec, comment)).Some?
    ensures |ReadDirectory(Archive(files, codec, comment)).value| == |files|
    ensures var bytes := Archive(files, codec, comment);
      ExtractedZipFile(bytes, ReadDirectory(bytes).value[i], codec)
         == Some(files[i].data)
  {
    var bytes := Archive(files, codec, comment);
    DirectoryRoundTrip(files, codec, comment);
    ArchiveParts(files, codec, comment);
    var offset := LocalRecordsHeld(bytes, 0, files, codec, i);
    assert files[i] in files;
    ExtractWritten(bytes, files[i], EntriesOf(files, codec, 0).value[i], codec, offset);
  }

  lemma {:induction false} NamesDecode(files: seq<File>, names: seq<string>, codec: Codec, offset: nat)
    requires |names| == |files| && forall i | 0 <= i < |files| :: files[i].name == Encode(names[i])
    ensures EntriesOf(files, codec, offset).Some? && |EntriesOf(files, codec, offset).value| == |files|
    ensures forall i | 0 <= i < |files| ::
      EntriesOf(files, codec, offset).value[i].path == WithoutByteOrderMark(names[i])
    decreases files
  {
    hide Decode, LocalRecord, Encode;
    if files != [] {
      DecodeOfEncode(names[0]);
      NamesDecode(files[1..], names[1..], codec, offset + |LocalRecord(files[0], codec)|);
    }
  }

  /**
   * Writing files under UTF-8 names, without an archive comment, and reading them back returns every file's
   * bytes under its name, except that a byte order mark at the start of a name is lost.
   */
  lemma CommentFreeRoundTrip(files: seq<File>, names: seq<string>, codec: Codec)
    requires |names| == |files| && forall i | 0 <= i < |files| :: files[i].name == Encode(names[i])
    requires Undoes(codec) && Expressible(files, codec, [])
    ensures var archive := Archive(files, codec, []);
      && ReadDirectory(archive).Some?
      && |ReadDirectory(archive).value| == |files|
      && forall i | 0 <= i < |files| ::
           && ReadDirectory(archive).value[i].path == WithoutByteOrderMark(names[i])
           && ExtractedZipFile(archive, ReadDirectory(archive).value[i], codec) == Some(files[i].data)
  {
    hide ExtractedZipFile, Archive, ReadDirectory, Expressible;
    ArchiveParts(files, codec, []);
    DirectoryRoundTrip(files, codec, []);
    NamesDecode(files, names, codec, 0);
    forall i | 0 <= i < |files|
      ensures ExtractedZipFile(Archive(files, codec, []), ReadDirectory(Archive(files, codec, [])).value[i], codec)
           == Some(files[i].data)
    {
      FilesRoundTrip(files, codec, [], i);
    }
  }
}
