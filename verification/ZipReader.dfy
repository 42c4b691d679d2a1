/**
 * The ZIP reader of the attachment processor: the backward search for the end record, the walk over the
 * central directory, and the extraction of one file body. `None` is the thrown `attachment.archiveUnsafe`.
 */
module ZipReader {
  import opened JsNumbers
  import opened Utf8
  import opened Wrappers

  const LOCAL_FILE_HEADER_SIGNATURE := 0x04034b50
  const CENTRAL_DIRECTORY_SIGNATURE := 0x02014b50
  const END_OF_CENTRAL_DIRECTORY_SIGNATURE := 0x06054b50

  const END_RECORD_BYTES := 22
  const CENTRAL_RECORD_BYTES := 46
  const LOCAL_HEADER_BYTES := 30

  datatype Entry = Entry(
    path: string,
    flags: int,
    compression: int,
    compressedBytes: nat,
    expandedBytes: nat,
    localHeaderOffset: nat
  )

  /** Raw DEFLATE. `inflate` fails on malformed input and on output longer than its limit. */
  datatype Codec = Codec(
    deflate: seq<byte> -> seq<byte>,
    inflate: (seq<byte>, nat) -> Option<seq<byte>>
  )

  // ----- little-endian fields

  /**
   * A field read past the end of the bytes throws the same `archiveUnsafe` as every other defect, so the
   * functions below test once that a whole record is present and then read its fields.
   */
  predicate InRange(bytes: seq<byte>, offset: int, width: nat) {
    0 <= offset && offset + width <= |bytes|
  }

  function ByteAt(bytes: seq<byte>, offset: nat): (r: nat)
    requires offset < |bytes|
    ensures r < 0x100
  {
    bytes[offset]
  }

  function Word16(bytes: seq<byte>, offset: nat): (r: nat)
    requires InRange(bytes, offset, 2)
    ensures r < 0x1_0000
  {
    ByteAt(bytes, offset) + 0x100 * ByteAt(bytes, offset + 1)
  }

  function Word32(bytes: seq<byte>, offset: nat): (r: nat)
    requires InRange(bytes, offset, 4)
    ensures r < TWO_32
  {
    ByteAt(bytes, offset) + 0x100 * ByteAt(bytes, offset + 1)
    + 0x1_0000 * ByteAt(bytes, offset + 2) + 0x100_0000 * ByteAt(bytes, offset + 3)
  }

  /** The readers shift and or signed 32-bit integers; they return the plain little-endian values. */
  function LittleEndian16(bytes: seq<byte>, offset: nat): (r: nat)
    requires InRange(bytes, offset, 2)
    ensures r == Word16(bytes, offset)
  {
    OrTwoBytes(bytes[offset], bytes[offset + 1]);
    BitOr(bytes[offset], ShiftLeft(bytes[offset + 1], 8))
  }

  function LittleEndian32(bytes: seq<byte>, offset: nat): (r: nat)
    requires InRange(bytes, offset, 4)
    ensures r == Word32(bytes, offset)
  {
    OrFourBytes(bytes[offset], bytes[offset + 1], bytes[offset + 2], bytes[offset + 3]);
    ToUint32(BitOr(BitOr(BitOr(bytes[offset], ShiftLeft(bytes[offset + 1], 8)),
                         ShiftLeft(bytes[offset + 2], 16)),
                   ShiftLeft(bytes[offset + 3], 24)))
  }

  lemma PowersOfTwo()
    ensures Pow2(8) == 0x100 && Pow2(16) == 0x1_0000 && Pow2(24) == 0x100_0000
  {
    assert Pow2(4) == 16;
    assert Pow2(12) == 0x1000;
    assert Pow2(20) == 0x10_0000;
  }

  lemma OrTwoBytes(first: nat, second: nat)
    requires first < 0x100 && second < 0x100
    ensures BitOr(first, ShiftLeft(second, 8)) == first + 0x100 * second
  {
    PowersOfTwo();
    hide BitOr, ShiftLeft, Pow2;
    var high := 0x100 * second;
    assert high == Pow2(8) * second;
    OrShifted(first, second, 8, high);
    assert ToInt32(first + high) == first + high;
  }

  lemma OrThreeBytes(first: nat, second: nat, third: nat)
    requires first < 0x100 && second < 0x100 && third < 0x100
    ensures BitOr(BitOr(first, ShiftLeft(second, 8)), ShiftLeft(third, 16))
         == first + 0x100 * second + 0x1_0000 * third
  {
    PowersOfTwo();
    hide BitOr, ShiftLeft, Pow2;
    var low := first + 0x100 * second;
    var high := 0x1_0000 * third;
    assert high == Pow2(16) * third;
    calc {
      BitOr(BitOr(first, ShiftLeft(second, 8)), ShiftLeft(third, 16));
      { OrTwoBytes(first, second); }
      BitOr(low, ShiftLeft(third, 16));
      { OrShifted(low, third, 16, high); }
      ToInt32(low + high);
      low + high;
    }
  }

  lemma OrFourBytes(first: nat, second: nat, third: nat, fourth: nat)
    requires first < 0x100 && second < 0x100 && third < 0x100 && fourth < 0x100
    ensures ToUint32(BitOr(BitOr(BitOr(first, ShiftLeft(second, 8)), ShiftLeft(third, 16)), ShiftLeft(fourth, 24)))
         == first + 0x100 * second + 0x1_0000 * third + 0x100_0000 * fourth
  {
    PowersOfTwo();
    hide BitOr, ShiftLeft, Pow2;
    var low := first + 0x100 * second + 0x1_0000 * third;
    var high := 0x100_0000 * fourth;
    assert high == Pow2(24) * fourth;
    calc {
      ToUint32(BitOr(BitOr(BitOr(first, ShiftLeft(second, 8)), ShiftLeft(third, 16)), ShiftLeft(fourth, 24)));
      { OrThreeBytes(first, second, third); }
      ToUint32(BitOr(low, ShiftLeft(fourth, 24)));
      { OrShifted(low, fourth, 24, high); }
      ToUint32(ToInt32(low + high));
      { UnsignedOfSigned(low + high); }
      low + high;
    }
  }

  // ----- the end record

  function FirstEndOffset(bytes: seq<byte>): nat {
    if |bytes| > 65_557 then |bytes| - 65_557 else 0
  }

  predicate HasEndSignature(bytes: seq<byte>, offset: int) {
    InRange(bytes, offset, 4) && Word32(bytes, offset) == END_OF_CENTRAL_DIRECTORY_SIGNATURE
  }

  /** The scan from `offset` downwards: it stops at the last signature that leaves room for a record. */
  function ScanForEnd(bytes: seq<byte>, offset: int): (end: Option<nat>)
    requires offset <= |bytes| - END_RECORD_BYTES
    ensures end.Some? ==>
      && FirstEndOffset(bytes) <= end.value <= offset
      && HasEndSignature(bytes, end.value)
      && forall later | end.value < later <= offset :: !HasEndSignature(bytes, later)
    ensures end.None? ==> forall o | FirstEndOffset(bytes) <= o <= offset :: !HasEndSignature(bytes, o)
    decreases offset + 1
  {
    if offset < FirstEndOffset(bytes) then None
    else if HasEndSignature(bytes, offset) then Some(offset)
    else ScanForEnd(bytes, offset - 1)
  }

  function FindEnd(bytes: seq<byte>): Option<nat> {
    ScanForEnd(bytes, |bytes| - END_RECORD_BYTES)
  }

  /** The search finds an end record exactly when no signature lies behind it. */
  lemma FoundIffLast(bytes: seq<byte>, end: nat)
    requires end + END_RECORD_BYTES <= |bytes| <= end + 65_557 && HasEndSignature(bytes, end)
    ensures FindEnd(bytes) == Some(end)
       <==> forall later | end < later <= |bytes| - END_RECORD_BYTES :: !HasEndSignature(bytes, later)
  {
    hide HasEndSignature;
  }

  method FindEndOfCentralDirectory(bytes: seq<byte>) returns (end: Option<nat>)
    ensures end == FindEnd(bytes)
  {
    var first := FirstEndOffset(bytes);
    var offset := |bytes| - END_RECORD_BYTES;
    while offset >= first
      invariant offset <= |bytes| - END_RECORD_BYTES
      invariant ScanForEnd(bytes, |bytes| - END_RECORD_BYTES) == ScanForEnd(bytes, offset)
    {
      if LittleEndian32(bytes, offset) == END_OF_CENTRAL_DIRECTORY_SIGNATURE {
        return Some(offset);
      }
      offset := offset - 1;
    }
    return None;
  }

  // ----- the central directory

  /** Where the end record says the central directory lies, when the reader accepts that. */
  datatype Bounds = Bounds(entryCount: nat, start: nat, stop: nat)

  function DirectoryBounds(bytes: seq<byte>, end: nat): (r: Option<Bounds>)
    requires InRange(bytes, end, END_RECORD_BYTES)
    ensures r.Some? ==> r.value.start <= r.value.stop <= end
  {
    var disk := Word16(bytes, end + 4);
    var centralDisk := Word16(bytes, end + 6);
    var entriesOnDisk := Word16(bytes, end + 8);
    var entryCount := Word16(bytes, end + 10);
    var centralBytes := Word32(bytes, end + 12);
    var centralOffset := Word32(bytes, end + 16);
    if disk != 0 || centralDisk != 0 || entriesOnDisk != entryCount || entryCount == 0xffff
       || centralBytes == 0xffff_ffff || centralOffset == 0xffff_ffff
       || centralOffset + centralBytes > end
    then None
    else Some(Bounds(entryCount, centralOffset, centralOffset + centralBytes))
  }

  function NameBytes(bytes: seq<byte>, offset: nat): (r: nat)
    requires InRange(bytes, offset, CENTRAL_RECORD_BYTES)
  {
    Word16(bytes, offset + 28)
  }

  /** The length of the record at `offset` as the record itself states it. */
  function RecordBytes(bytes: seq<byte>, offset: nat): (r: nat)
    requires InRange(bytes, offset, CENTRAL_RECORD_BYTES)
    ensures r >= CENTRAL_RECORD_BYTES + NameBytes(bytes, offset)
  {
    CENTRAL_RECORD_BYTES + NameBytes(bytes, offset)
    + Word16(bytes, offset + 30) + Word16(bytes, offset + 32)
  }

  /** One record of the central directory. */
  function ReadRecord(bytes: seq<byte>, offset: nat, centralEnd: nat): (r: Option<Entry>)
    requires centralEnd <= |bytes|
    ensures r.Some? ==>
      && InRange(bytes, offset, CENTRAL_RECORD_BYTES)
      && offset + RecordBytes(bytes, offset) <= centralEnd
  {
    if !InRange(bytes, offset, CENTRAL_RECORD_BYTES)
       || Word32(bytes, offset) != CENTRAL_DIRECTORY_SIGNATURE
       || offset + RecordBytes(bytes, offset) > centralEnd
    then None
    else
      var name := offset + CENTRAL_RECORD_BYTES;
      var path :- Decode(bytes[name..name + NameBytes(bytes, offset)]);
      Some(Entry(path,
                 Word16(bytes, offset + 8),
                 Word16(bytes, offset + 10),
                 Word32(bytes, offset + 20),
                 Word32(bytes, offset + 24),
                 Word32(bytes, offset + 42)))
  }

  /** `count` records from `offset`, which must end exactly at `centralEnd`. */
  function ReadRecords(bytes: seq<byte>, offset: nat, count: nat, centralEnd: nat): Option<seq<Entry>>
    requires centralEnd <= |bytes|
    decreases count
  {
    if count == 0 then
      if offset == centralEnd then Some([]) else None
    else
      var entry :- ReadRecord(bytes, offset, centralEnd);
      Prepend([entry], ReadRecords(bytes, offset + RecordBytes(bytes, offset), count - 1, centralEnd))
  }

  function ReadDirectory(bytes: seq<byte>): Option<seq<Entry>> {
    var end :- FindEnd(bytes);
    var bounds :- DirectoryBounds(bytes, end);
    ReadRecords(bytes, bounds.start, bounds.entryCount, bounds.stop)
  }

  method ZipEntries(bytes: seq<byte>) returns (result: Option<seq<Entry>>)
    ensures result == ReadDirectory(bytes)
  {
    var end := FindEndOfCentralDirectory(bytes);
    if end.None? {
      return None;
    }
    var bounds := DirectoryBounds(bytes, end.value);
    if bounds.None? {
      return None;
    }
    result := WalkRecords(bytes, bounds.value);
  }

  method WalkRecords(bytes: seq<byte>, bounds: Bounds) returns (result: Option<seq<Entry>>)
    requires bounds.stop <= |bytes|
    ensures result == ReadRecords(bytes, bounds.start, bounds.entryCount, bounds.stop)
  {
    var entries: seq<Entry> := [];
    var offset := bounds.start;
    var index := 0;
    hide ReadRecord, RecordBytes, Decode, Prepend, ReadRecords;
    PrependNothing(ReadRecords(bytes, offset, bounds.entryCount, bounds.stop));
    while index < bounds.entryCount
      invariant 0 <= index <= bounds.entryCount && 0 <= offset
      invariant ReadRecords(bytes, bounds.start, bounds.entryCount, bounds.stop)
             == Prepend(entries, ReadRecords(bytes, offset, bounds.entryCount - index, bounds.stop))
    {
      ReadRecordsStep(bytes, offset, bounds.entryCount - index, bounds.stop, entries);
      var record := ReadRecord(bytes, offset, bounds.stop);
      if record.None? {
        return None;
      }
      entries, offset, index := entries + [record.value], offset + RecordBytes(bytes, offset), index + 1;
    }
    ReadRecordsDone(bytes, offset, bounds.stop, entries);
    if offset != bounds.stop {
      return None;
    }
    return Some(entries);
  }

  lemma ReadRecordsDone(bytes: seq<byte>, offset: nat, centralEnd: nat, entries: seq<Entry>)
    requires centralEnd <= |bytes|
    ensures Prepend(entries, ReadRecords(bytes, offset, 0, centralEnd))
         == if offset == centralEnd then Some(entries) else None
  {
    assert entries + [] == entries;
  }

  lemma ReadRecordsStep(bytes: seq<byte>, offset: nat, count: nat, centralEnd: nat, entries: seq<Entry>)
    requires centralEnd <= |bytes| && count > 0
    ensures Prepend(entries, ReadRecords(bytes, offset, count, centralEnd))
         == match ReadRecord(bytes, offset, centralEnd)
            case None => None
            case Some(entry) =>
              Prepend(entries + [entry],
                      ReadRecords(bytes, offset + RecordBytes(bytes, offset), count - 1, centralEnd))
  {
    var record := ReadRecord(bytes, offset, centralEnd);
    if record.Some? {
      PrependTwice(entries, record.value,
                   ReadRecords(bytes, offset + RecordBytes(bytes, offset), count - 1, centralEnd));
    }
  }

  function Prepend(entries: seq<Entry>, rest: Option<seq<Entry>>): Option<seq<Entry>> {
    match rest
    case Some(more) => Some(entries + more)
    case None => None
  }

  lemma PrependNothing(rest: Option<seq<Entry>>)
    ensures Prepend([], rest) == rest
  {
    if rest.Some? {
      assert [] + rest.value == rest.value;
    }
  }

  lemma PrependTwice(entries: seq<Entry>, entry: Entry, rest: Option<seq<Entry>>)
    ensures Prepend(entries, Prepend([entry], rest)) == Prepend(entries + [entry], rest)
  {
    if rest.Some? {
      assert entries + ([entry] + rest.value) == entries + [entry] + rest.value;
    }
  }

  // ----- one file

  function ExtractedZipFile(archive: seq<byte>, entry: Entry, codec: Codec): Option<seq<byte>> {
    var offset := entry.localHeaderOffset;
    if !InRange(archive, offset, LOCAL_HEADER_BYTES)
       || Word32(archive, offset) != LOCAL_FILE_HEADER_SIGNATURE
       || Word16(archive, offset + 6) != entry.flags
       || Word16(archive, offset + 8) != entry.compression
    then None else
    var bodyStart := offset + LOCAL_HEADER_BYTES
                     + Word16(archive, offset + 26) + Word16(archive, offset + 28);
    var bodyEnd := bodyStart + entry.compressedBytes;
    if bodyEnd > |archive| then None else
    var compressed := archive[bodyStart..bodyEnd];
    var extracted :-
      if entry.compression == 0 then Some(compressed)
      else if entry.compression == 8 then codec.inflate(compressed, entry.expandedBytes + 1)
      else None;
    if |extracted| != entry.expandedBytes then None else Some(extracted)
  }

  /** A local header with the entry's flags and method, its name and extra fields, and then the entry's body. */
  ghost predicate HoldsBody(archive: seq<byte>, entry: Entry, header: seq<byte>, names: seq<byte>, body: seq<byte>) {
    var offset, bodyStart := entry.localHeaderOffset, entry.localHeaderOffset + |header| + |names|;
    && |header| == LOCAL_HEADER_BYTES
    && bodyStart + |body| <= |archive|
    && archive[offset..offset + |header|] == header
    && archive[offset + |header|..bodyStart] == names
    && archive[bodyStart..bodyStart + |body|] == body
    && Word32(header, 0) == LOCAL_FILE_HEADER_SIGNATURE
    && Word16(header, 6) == entry.flags && Word16(header, 8) == entry.compression
    && |names| == Word16(header, 26) + Word16(header, 28)
    && |body| == entry.compressedBytes
  }

  /** What a body of a method stands for. */
  ghost predicate Expands(codec: Codec, entry: Entry, body: seq<byte>, data: seq<byte>) {
    && |data| == entry.expandedBytes
    && ((entry.compression == 0 && data == body)
        || (entry.compression == 8 && codec.inflate(body, entry.expandedBytes + 1) == Some(data)))
  }

  lemma WordsOfSlice(archive: seq<byte>, offset: nat, header: seq<byte>)
    requires |header| == LOCAL_HEADER_BYTES && offset + |header| <= |archive|
    requires archive[offset..offset + |header|] == header
    ensures Word32(header, 0) == Word32(archive, offset)
    ensures Word16(header, 6) == Word16(archive, offset + 6) && Word16(header, 8) == Word16(archive, offset + 8)
    ensures Word16(header, 26) == Word16(archive, offset + 26) && Word16(header, 28) == Word16(archive, offset + 28)
  {
    assert forall k | 0 <= k < LOCAL_HEADER_BYTES :: header[k] == archive[offset + k];
  }

  /**
   * For any archive and entry: extraction gives certain bytes exactly when the archive holds such a header and, behind
   * its name and extra fields, as many bytes as the entry states, which expand to them. The sizes in the local header
   * do not matter.
   */
  lemma ExtractionMeaning(archive: seq<byte>, entry: Entry, codec: Codec, data: seq<byte>)
    ensures ExtractedZipFile(archive, entry, codec) == Some(data)
       <==> exists header, names, body ::
              HoldsBody(archive, entry, header, names, body) && Expands(codec, entry, body, data)
  {
    hide Word16, Word32;
    var offset := entry.localHeaderOffset;
    if ExtractedZipFile(archive, entry, codec) == Some(data) {
      var header := archive[offset..offset + LOCAL_HEADER_BYTES];
      WordsOfSlice(archive, offset, header);
      var bodyStart := offset + LOCAL_HEADER_BYTES + Word16(archive, offset + 26) + Word16(archive, offset + 28);
      var names := archive[offset + LOCAL_HEADER_BYTES..bodyStart];
      var body := archive[bodyStart..bodyStart + entry.compressedBytes];
      assert HoldsBody(archive, entry, header, names, body) && Expands(codec, entry, body, data);
    }
    if header, names, body :| HoldsBody(archive, entry, header, names, body) && Expands(codec, entry, body, data) {
      WordsOfSlice(archive, offset, header);
    }
  }

  // ----- an accepted directory is exactly tiled by its records

  /** A record of `next - offset` bytes at `offset` describes `entry`. */
  ghost predicate RecordAt(bytes: seq<byte>, offset: nat, next: nat, entry: Entry) {
    && InRange(bytes, offset, CENTRAL_RECORD_BYTES)
    && Word32(bytes, offset) == CENTRAL_DIRECTORY_SIGNATURE
    && Word16(bytes, offset + 8) == entry.flags
    && Word16(bytes, offset + 10) == entry.compression
    && Word32(bytes, offset + 20) == entry.compressedBytes
    && Word32(bytes, offset + 24) == entry.expandedBytes
    && Word32(bytes, offset + 42) == entry.localHeaderOffset
    && next == offset + RecordBytes(bytes, offset) <= |bytes|
    && var name := offset + CENTRAL_RECORD_BYTES;
       Decode(bytes[name..name + NameBytes(bytes, offset)]) == Some(entry.path)
  }

  /** Consecutive records, each starting where the one before it ends, fill `[start, stop)`. */
  ghost predicate Tiles(bytes: seq<byte>, offsets: seq<nat>, entries: seq<Entry>, start: nat, stop: nat) {
    && |offsets| == |entries| + 1
    && offsets[0] == start
    && offsets[|entries|] == stop
    && forall i | 0 <= i < |entries| :: RecordAt(bytes, offsets[i], offsets[i + 1], entries[i])
  }

  lemma ReadIsRecordAt(bytes: seq<byte>, offset: nat, centralEnd: nat)
    requires centralEnd <= |bytes| && ReadRecord(bytes, offset, centralEnd).Some?
    ensures RecordAt(bytes, offset, offset + RecordBytes(bytes, offset), ReadRecord(bytes, offset, centralEnd).value)
  {
    hide Word16, Word32, Decode;
  }

  lemma TilesStep(
      bytes: seq<byte>, offsets: seq<nat>, entries: seq<Entry>, start: nat, next: nat, stop: nat, entry: Entry)
    requires RecordAt(bytes, start, next, entry) && Tiles(bytes, offsets, entries, next, stop)
    ensures Tiles(bytes, [start] + offsets, [entry] + entries, start, stop)
  {
    hide RecordAt;
    var all := [start] + offsets;
    forall i | 0 <= i < |entries| + 1 ensures RecordAt(bytes, all[i], all[i + 1], ([entry] + entries)[i]) {
      assert i > 0 ==> all[i] == offsets[i - 1] && all[i + 1] == offsets[i];
    }
  }

  lemma {:induction false} ReadRecordsTiles(bytes: seq<byte>, offset: nat, count: nat, centralEnd: nat)
      returns (offsets: seq<nat>)
    requires centralEnd <= |bytes|
    requires ReadRecords(bytes, offset, count, centralEnd).Some?
    ensures var entries := ReadRecords(bytes, offset, count, centralEnd).value;
      |entries| == count && Tiles(bytes, offsets, entries, offset, centralEnd)
    decreases count
  {
    if count == 0 {
      offsets := [offset];
    } else {
      hide ReadRecord, RecordBytes, Tiles, Word16, Word32;
      var next := offset + RecordBytes(bytes, offset);
      var rest := ReadRecordsTiles(bytes, next, count - 1, centralEnd);
      var entry := ReadRecord(bytes, offset, centralEnd).value;
      var others := ReadRecords(bytes, next, count - 1, centralEnd).value;
      ReadIsRecordAt(bytes, offset, centralEnd);
      TilesStep(bytes, rest, others, offset, next, centralEnd, entry);
      offsets := [offset] + rest;
    }
  }

  lemma {:induction false} TilesAreRead(
      bytes: seq<byte>, offsets: seq<nat>, entries: seq<Entry>, start: nat, stop: nat)
    requires stop <= |bytes|
    requires Tiles(bytes, offsets, entries, start, stop)
    ensures start <= stop
    ensures ReadRecords(bytes, start, |entries|, stop) == Some(entries)
    decreases |entries|
  {
    hide RecordAt, ReadRecord, RecordBytes;
    if entries != [] {
      assert RecordAt(bytes, start, offsets[1], entries[0]);
      RecordAtIsRead(bytes, start, offsets[1], entries[0]);
      assert Tiles(bytes, offsets[1..], entries[1..], offsets[1], stop);
      TilesAreRead(bytes, offsets[1..], entries[1..], offsets[1], stop);
      assert entries == [entries[0]] + entries[1..];
      hide Tiles;
    }
  }

  lemma RecordAtIsRead(bytes: seq<byte>, offset: nat, next: nat, entry: Entry)
    requires RecordAt(bytes, offset, next, entry)
    ensures InRange(bytes, offset, CENTRAL_RECORD_BYTES) && offset < next == offset + RecordBytes(bytes, offset)
    ensures forall stop | next <= stop <= |bytes| :: ReadRecord(bytes, offset, stop) == Some(entry)
  {
    hide Word16, Word32, Decode;
  }

  /** What a readable archive is, without saying how it is read. */
  ghost predicate IsDirectory(bytes: seq<byte>, end: nat, bounds: Bounds, offsets: seq<nat>, entries: seq<Entry>) {
    && end + END_RECORD_BYTES <= |bytes| <= end + 65_557
    && HasEndSignature(bytes, end)
    && (forall later | end < later <= |bytes| - END_RECORD_BYTES :: !HasEndSignature(bytes, later))
    && DirectoryBounds(bytes, end) == Some(bounds)
    && bounds.entryCount == |entries|
    && Tiles(bytes, offsets, entries, bounds.start, bounds.stop)
  }

  /** Reading succeeds exactly on archives whose records tile the directory, and returns those records. */
  lemma DirectoryIsTiled(bytes: seq<byte>, entries: seq<Entry>)
    ensures ReadDirectory(bytes) == Some(entries)
       <==> exists end: nat, bounds, offsets :: IsDirectory(bytes, end, bounds, offsets, entries)
  {
    if ReadDirectory(bytes) == Some(entries) {
      var end := FindEnd(bytes).value;
      var bounds := DirectoryBounds(bytes, end).value;
      var offsets := ReadRecordsTiles(bytes, bounds.start, bounds.entryCount, bounds.stop);
      assert IsDirectory(bytes, end, bounds, offsets, entries);
    }
    if end: nat, bounds, offsets :| IsDirectory(bytes, end, bounds, offsets, entries) {
      assert FindEnd(bytes) == Some(end);
      TilesAreRead(bytes, offsets, entries, bounds.start, bounds.stop);
    }
  }
}
