/** The parser of NUL-separated tree listings, and a printer that it undoes. */
module TreeParser {
  import opened GitSync
  import opened RepositoryPaths
  import opened SplitText
  import opened Utf8
  import opened Wrappers

  datatype TreeError = InvalidTree | LimitExceeded | InvalidText | InvalidObjectId | InvalidPath

  predicate IsLowerHex(c: char) {
    'a' <= c <= 'f' || '0' <= c <= '9'
  }

  /** `/^(?:[a-f0-9]{40}|[a-f0-9]{64})$/` */
  predicate IsObjectId(s: string) {
    |s| in {40, 64} && forall i | 0 <= i < |s| :: IsLowerHex(s[i])
  }

  /** `bytes.indexOf(b)`, with the length of the bytes for -1. */
  function IndexOf(bytes: seq<byte>, b: byte): (i: nat)
    ensures i <= |bytes| && b !in bytes[..i] && (i < |bytes| ==> bytes[i] == b)
  {
    if bytes == [] || bytes[0] == b then 0
    else
      var i := IndexOf(bytes[1..], b);
      assert bytes[..i + 1] == [bytes[0]] + bytes[1..][..i];
      i + 1
  }

  const TAB: byte := 9

  /** One record; `None` is one that is skipped because it is not a blob. */
  function ParseRecord(record: seq<byte>): Result<Option<File>, TreeError> {
    var tab := IndexOf(record, TAB);
    if tab == |record| then Err(InvalidTree)
    else
      var metadata := Decode(record[..tab]);
      if metadata.None? then Err(InvalidText)
      else
        var fields := Split(metadata.value, ' ');
        if |fields| != 3 || fields[1] != "blob" then Ok(None)
        else if !IsObjectId(fields[2]) then Err(InvalidObjectId)
        else
          var path := Decode(record[tab + 1..]);
          if path.None? then Err(InvalidText)
          else if !IsRepositoryPath(path.value) then Err(InvalidPath)
          else Ok(Some(File(path.value, fields[2])))
  }

  /** What the rest of a listing adds to the files found so far. */
  function ParseRest(rest: seq<byte>, maximum: nat, files: seq<File>): Result<seq<File>, TreeError>
    decreases |rest|
  {
    if rest == [] then Ok(files)
    else
      var end := IndexOf(rest, 0);
      if end == |rest| then Err(InvalidTree)
      else if end == 0 then ParseRest(rest[1..], maximum, files)
      else if |files| >= maximum then Err(LimitExceeded)
      else
        var parsed :- ParseRecord(rest[..end]);
        if parsed.None? then ParseRest(rest[end + 1..], maximum, files)
        else if HasPath(files, parsed.value.path) then Err(InvalidTree)
        else ParseRest(rest[end + 1..], maximum, files + [parsed.value])
  }

  /** `parseTreeEntries` */
  method ParseTreeEntries(value: seq<byte>, maximumEntries: nat) returns (result: Result<seq<File>, TreeError>)
    ensures result == ParseRest(value, maximumEntries, [])
  {
    hide ParseRecord, HasPath;
    var entries: seq<File> := [];
    var seen: set<string> := {};
    var offset := 0;
    NoPaths();
    assert value[0..] == value;
    while offset < |value|
      invariant 0 <= offset <= |value|
      invariant forall path :: path in seen <==> HasPath(entries, path)
      invariant ParseRest(value[offset..], maximumEntries, entries) == ParseRest(value, maximumEntries, [])
    {
      ghost var rest := value[offset..];
      var length := IndexOf(value[offset..], 0);
      if length == |value| - offset {
        return Err(InvalidTree);
      }
      var entry := value[offset..offset + length];
      assert entry == rest[..length];
      offset := offset + length + 1;
      assert rest[length + 1..] == value[offset..];
      if |entry| == 0 {
        continue;
      }
      if |entries| >= maximumEntries {
        return Err(LimitExceeded);
      }
      var parsed := ParseRecord(entry);
      if parsed.Err? {
        return Err(parsed.error);
      }
      if parsed.value.None? {
        continue;
      }
      var file := parsed.value.value;
      if file.path in seen {
        return Err(InvalidTree);
      }
      PathsGrow(entries, file);
      entries := entries + [file];
      seen := seen + {file.path};
    }
    return Ok(entries);
  }

  lemma NoPaths()
    ensures forall path :: !HasPath([], path)
  {
  }

  lemma PathsGrow(files: seq<File>, f: File)
    ensures forall path :: HasPath(files + [f], path) <==> HasPath(files, path) || path == f.path
  {
    var grown := files + [f];
    forall path ensures HasPath(grown, path) <==> HasPath(files, path) || path == f.path {
      assert grown[|files|] == f;
      assert forall i | 0 <= i < |files| :: grown[i] == files[i];
    }
  }

  // ----- what is accepted

  predicate Acceptable(f: File) {
    IsRepositoryPath(f.path) && IsObjectId(f.blobOid)
  }

  lemma ParsedRecordIsAcceptable(record: seq<byte>)
    ensures ParseRecord(record).Ok? && ParseRecord(record).value.Some? ==> Acceptable(ParseRecord(record).value.value)
  {
    hide Decode, Split, IsRepositoryPath, IsObjectId;
  }

  lemma NewPathIsDistinct(files: seq<File>, f: File)
    requires ValidTree(files) && !HasPath(files, f.path)
    ensures ValidTree(files + [f])
  {
    var grown := files + [f];
    forall i, j | 0 <= i < j < |grown| ensures PathOf(grown[i]) != PathOf(grown[j]) {
      assert j < |files| ==> PathOf(files[i]) != PathOf(files[j]);
    }
  }

  /** Whatever the bytes: no path twice, every path safe, every id well formed, and no more than the limit. */
  lemma {:induction false} ParsedIsValid(rest: seq<byte>, maximum: nat, files: seq<File>)
    requires ValidTree(files) && |files| <= maximum && forall i | 0 <= i < |files| :: Acceptable(files[i])
    ensures ParseRest(rest, maximum, files).Ok? ==>
      var all := ParseRest(rest, maximum, files).value;
      && files <= all
      && ValidTree(all) && |all| <= maximum
      && forall i | 0 <= i < |all| :: Acceptable(all[i])
    decreases |rest|
  {
    hide ParseRecord, Acceptable, ValidTree;
    if rest != [] {
      var end := IndexOf(rest, 0);
      if end == 0 {
        ParsedIsValid(rest[1..], maximum, files);
      } else if end < |rest| && |files| < maximum {
        var parsed := ParseRecord(rest[..end]);
        if parsed == Ok(None) {
          ParsedIsValid(rest[end + 1..], maximum, files);
        } else if parsed.Ok? && !HasPath(files, parsed.value.value.path) {
          ParsedRecordIsAcceptable(rest[..end]);
          NewPathIsDistinct(files, parsed.value.value);
          ParsedIsValid(rest[end + 1..], maximum, files + [parsed.value.value]);
        }
      }
    }
  }

  lemma ParsedTreeIsValid(value: seq<byte>, maximum: nat)
    ensures ParseRest(value, maximum, []).Ok? ==>
      var files := ParseRest(value, maximum, []).value;
      ValidTree(files) && |files| <= maximum && forall i | 0 <= i < |files| :: Acceptable(files[i])
  {
    ParsedIsValid(value, maximum, []);
  }

  // ----- the printer

  /** One line of a recursive listing. */
  datatype TreeRecord = TreeRecord(mode: string, kind: string, objectId: string, path: string)

  function PrintRecord(r: TreeRecord): seq<byte> {
    Encode(r.mode + " " + r.kind + " " + r.objectId) + [TAB] + Encode(r.path)
  }

  function PrintTree(records: seq<TreeRecord>): seq<byte> {
    if records == [] then [] else PrintRecord(records[0]) + [0] + PrintTree(records[1..])
  }

  /** A character of the fields before the tab. */
  predicate IsFieldCharacter(c: char) {
    '0' <= c <= '9' || 'a' <= c <= 'z'
  }

  predicate IsField(s: string) {
    forall i | 0 <= i < |s| :: IsFieldCharacter(s[i])
  }

  /** What a listing can hold: plain fields and any path without NUL. */
  predicate IsPrintable(r: TreeRecord) {
    IsField(r.mode) && IsField(r.kind) && IsField(r.objectId) && '\0' !in r.path
  }

  /** The blobs of a listing. */
  function Blobs(records: seq<TreeRecord>): seq<File> {
    if records == [] then []
    else
      var last := records[|records| - 1];
      Blobs(records[..|records| - 1]) + (if last.kind == "blob" then [File(last.path, last.objectId)] else [])
  }

  /** The blobs as their paths are decoded: without a leading byte order mark. */
  function DecodedBlobs(records: seq<TreeRecord>): seq<File> {
    if records == [] then []
    else
      var last := records[|records| - 1];
      DecodedBlobs(records[..|records| - 1])
        + (if last.kind == "blob" then [File(WithoutByteOrderMark(last.path), last.objectId)] else [])
  }

  lemma {:induction false} IndexAfter(before: seq<byte>, b: byte, after: seq<byte>)
    requires b !in before
    ensures IndexOf(before + [b] + after, b) == |before|
  {
    if before != [] {
      assert before == [before[0]] + before[1..];
      assert (before + [b] + after)[1..] == before[1..] + [b] + after;
      IndexAfter(before[1..], b, after);
    }
  }

  function Metadata(r: TreeRecord): string {
    r.mode + " " + r.kind + " " + r.objectId
  }

  lemma MetadataSplits(mode: string, kind: string, objectId: string)
    requires ' ' !in mode && ' ' !in kind && ' ' !in objectId
    ensures Split(mode + " " + kind + " " + objectId, ' ') == [mode, kind, objectId]
  {
    assert mode + " " + kind + " " + objectId == mode + [' '] + (kind + [' '] + objectId);
    SplitOfJoined(mode, ' ', kind + [' '] + objectId);
    SplitOfJoined(kind, ' ', objectId);
    SplitWithout(objectId, ' ');
    hide Split;
  }

  lemma FieldIsPlain(s: string)
    requires IsField(s)
    ensures ' ' !in s && '\t' !in s && '\0' !in s && IsAscii(s)
  {
  }

  lemma MetadataFields(r: TreeRecord)
    requires IsField(r.mode) && IsField(r.kind) && IsField(r.objectId)
    ensures Split(Metadata(r), ' ') == [r.mode, r.kind, r.objectId]
    ensures Decode(Encode(Metadata(r))) == Some(Metadata(r))
    ensures TAB !in Encode(Metadata(r)) && 0 !in Encode(Metadata(r))
  {
    FieldIsPlain(r.mode);
    FieldIsPlain(r.kind);
    FieldIsPlain(r.objectId);
    hide IsField, Split, Encode, Decode;
    MetadataSplits(r.mode, r.kind, r.objectId);
    var m := Metadata(r);
    assert IsAscii(m);
    AsciiIsItsOwnEncoding(m);
    EncodedAsciiByte(m, TAB);
    EncodedAsciiByte(m, 0);
  }

  /** What the parser makes of a printed record: the file with its decoded path, if id and path pass. */
  lemma PrintedRecordParses(r: TreeRecord)
    requires IsPrintable(r)
    ensures ParseRecord(PrintRecord(r))
      == if r.kind != "blob" then Ok(None)
         else if !IsObjectId(r.objectId) then Err(InvalidObjectId)
         else if !IsRepositoryPath(WithoutByteOrderMark(r.path)) then Err(InvalidPath)
         else Ok(Some(File(WithoutByteOrderMark(r.path), r.objectId)))
  {
    var metadata, path := Encode(Metadata(r)), Encode(r.path);
    var record := PrintRecord(r);
    assert record == metadata + [TAB] + path;
    MetadataFields(r);
    IndexAfter(metadata, TAB, path);
    assert record[..|metadata|] == metadata && record[|metadata| + 1..] == path;
    DecodeOfEncode(r.path);
    hide Encode, Decode, Split, IsRepositoryPath, IsObjectId, Metadata, PrintRecord, WithoutByteOrderMark;
  }

  lemma PrintedRecordBytes(r: TreeRecord)
    requires IsPrintable(r)
    ensures PrintRecord(r) != [] && 0 !in PrintRecord(r)
  {
    MetadataFields(r);
    EncodedAsciiByte(r.path, 0);
    assert PrintRecord(r) == Encode(Metadata(r)) + [TAB] + Encode(r.path);
  }

  lemma PrintedHead(records: seq<TreeRecord>)
    requires records != [] && IsPrintable(records[0])
    ensures var text, record := PrintTree(records), PrintRecord(records[0]);
      && IndexOf(text, 0) == |record| && 0 < |record| < |text|
      && text[..|record|] == record
      && text[|record| + 1..] == PrintTree(records[1..])
  {
    var record, rest := PrintRecord(records[0]), PrintTree(records[1..]);
    PrintedRecordBytes(records[0]);
    IndexAfter(record, 0, rest);
    assert PrintTree(records) == record + [0] + rest;
    hide PrintRecord, PrintTree, IndexOf, IsPrintable;
    assert (record + [0] + rest)[..|record|] == record && (record + [0] + rest)[|record| + 1..] == rest;
  }

  /**
   * What is wrong with a record, given those before it. The limit comes first and strikes at any record, blob or not;
   * a path is judged, and compared, as it is decoded.
   */
  function Defect(records: seq<TreeRecord>, k: nat, maximum: nat): Option<TreeError>
    requires k < |records|
  {
    var r, found := records[k], DecodedBlobs(records[..k]);
    if |found| >= maximum then Some(LimitExceeded)
    else if r.kind != "blob" then None
    else if !IsObjectId(r.objectId) then Some(InvalidObjectId)
    else if !IsRepositoryPath(WithoutByteOrderMark(r.path)) then Some(InvalidPath)
    else if HasPath(found, WithoutByteOrderMark(r.path)) then Some(InvalidTree)
    else None
  }

  ghost predicate FreeOfDefects(records: seq<TreeRecord>, maximum: nat) {
    forall k | 0 <= k < |records| :: Defect(records, k, maximum).None?
  }

  ghost predicate IsFirstDefect(records: seq<TreeRecord>, k: nat, maximum: nat) {
    && k < |records| && Defect(records, k, maximum).Some?
    && forall i | 0 <= i < k :: Defect(records, i, maximum).None?
  }

  /** What parsing the records from `k` on gives, when those before it were accepted. */
  function ParseFrom(records: seq<TreeRecord>, k: nat, maximum: nat): Result<seq<File>, TreeError>
    requires k <= |records|
  {
    ParseRest(PrintTree(records[k..]), maximum, DecodedBlobs(records[..k]))
  }

  lemma ParseFromStep(records: seq<TreeRecord>, k: nat, maximum: nat)
    requires k < |records| && IsPrintable(records[k])
    ensures ParseFrom(records, k, maximum)
      == match Defect(records, k, maximum)
         case Some(error) => Err(error)
         case None => ParseFrom(records, k + 1, maximum)
  {
    var r, found := records[k], DecodedBlobs(records[..k]);
    assert records[..k + 1][..k] == records[..k] && records[k..][1..] == records[k + 1..];
    PrintedHead(records[k..]);
    PrintedRecordParses(r);
    assert DecodedBlobs(records[..k + 1])
        == found + (if r.kind == "blob" then [File(WithoutByteOrderMark(r.path), r.objectId)] else []);
    assert found + [] == found;
    hide PrintTree, PrintRecord, ParseRecord, IndexOf, IsPrintable, IsRepositoryPath, IsObjectId, HasPath,
      WithoutByteOrderMark, DecodedBlobs;
  }

  lemma {:induction false} ParseFromReaches(records: seq<TreeRecord>, k: nat, maximum: nat)
    requires k <= |records|
    requires forall i | 0 <= i < |records| :: IsPrintable(records[i])
    requires forall i | 0 <= i < k :: Defect(records, i, maximum).None?
    ensures ParseRest(PrintTree(records), maximum, []) == ParseFrom(records, k, maximum)
  {
    if k == 0 {
      assert records[0..] == records && records[..0] == [];
    } else {
      ParseFromReaches(records, k - 1, maximum);
      ParseFromStep(records, k - 1, maximum);
      hide ParseFrom, PrintTree, ParseRest, Defect, IsPrintable;
    }
  }

  /**
   * The round trip, for every listing: without defects the parser returns exactly its blobs in order, with their
   * decoded paths; otherwise it reports the first defect.
   */
  lemma TreeRoundTrip(records: seq<TreeRecord>, maximum: nat)
    requires forall i | 0 <= i < |records| :: IsPrintable(records[i])
    ensures FreeOfDefects(records, maximum) ==>
      ParseRest(PrintTree(records), maximum, []) == Ok(DecodedBlobs(records))
    ensures forall k | IsFirstDefect(records, k, maximum) ::
      ParseRest(PrintTree(records), maximum, []) == Err(Defect(records, k, maximum).value)
  {
    if FreeOfDefects(records, maximum) {
      ParseFromReaches(records, |records|, maximum);
      assert records[|records|..] == [] && records[..|records|] == records;
    }
    forall k | IsFirstDefect(records, k, maximum)
      ensures ParseRest(PrintTree(records), maximum, []) == Err(Defect(records, k, maximum).value)
    {
      ParseFromReaches(records, k, maximum);
      ParseFromStep(records, k, maximum);
      hide ParseFrom, PrintTree, ParseRest, Defect, IsPrintable;
    }
  }

  // ----- when the original paths come back

  predicate IsMarked(r: TreeRecord) {
    r.kind == "blob" && r.path != [] && r.path[0] == BYTE_ORDER_MARK
  }

  lemma {:induction false} AsManyBlobs(records: seq<TreeRecord>)
    ensures |DecodedBlobs(records)| == |Blobs(records)|
  {
    if records != [] {
      AsManyBlobs(records[..|records| - 1]);
    }
  }

  lemma {:induction false} DecodedAsTheyAre(records: seq<TreeRecord>)
    ensures DecodedBlobs(records) == Blobs(records) <==> forall i | 0 <= i < |records| :: !IsMarked(records[i])
  {
    if records != [] {
      var front, last := records[..|records| - 1], records[|records| - 1];
      DecodedAsTheyAre(front);
      AsManyBlobs(front);
      var a, b := DecodedBlobs(front), Blobs(front);
      assert DecodedBlobs(records)[..|a|] == a && Blobs(records)[..|b|] == b;
      assert last.kind == "blob" ==> DecodedBlobs(records)[|a|].path == WithoutByteOrderMark(last.path);
      assert last.kind == "blob" ==> Blobs(records)[|b|].path == last.path;
      assert IsMarked(last) ==> |WithoutByteOrderMark(last.path)| < |last.path|;
      assert forall i | 0 <= i < |front| :: front[i] == records[i];
    }
  }

  lemma {:induction false} BlobsExtend(records: seq<TreeRecord>, k: nat)
    requires k <= |records|
    ensures Blobs(records[..k]) <= Blobs(records)
  {
    if k == |records| {
      assert records[..k] == records;
    } else {
      var front := records[..|records| - 1];
      BlobsExtend(front, k);
      assert front[..k] == records[..k];
    }
  }

  /** A blob is a new path among those before it, when no path occurs twice. */
  lemma BlobIsNew(records: seq<TreeRecord>, k: nat)
    requires k < |records| && records[k].kind == "blob" && ValidTree(Blobs(records))
    ensures !HasPath(Blobs(records[..k]), records[k].path)
  {
    var before, all := Blobs(records[..k]), Blobs(records);
    assert records[..k + 1][..k] == records[..k];
    BlobsExtend(records, k + 1);
    var n := |before|;
    assert Blobs(records[..k + 1]) == before + [File(records[k].path, records[k].objectId)];
    assert all[n] == File(records[k].path, records[k].objectId);
    forall i | 0 <= i < n ensures before[i].path != records[k].path {
      assert all[i] == before[i];
      assert PathOf(all[i]) != PathOf(all[n]);
    }
  }

  lemma FirstDefect(records: seq<TreeRecord>, k: nat, maximum: nat) returns (first: nat)
    requires k < |records| && Defect(records, k, maximum).Some?
    ensures IsFirstDefect(records, first, maximum)
  {
    hide Defect;
    first := 0;
    while Defect(records, first, maximum).None?
      invariant first <= k
      invariant forall i | 0 <= i < first :: Defect(records, i, maximum).None?
      decreases k - first
    {
      first := first + 1;
    }
  }

  /** A listing that Git can print: distinct safe blob paths and well formed blob ids. */
  ghost predicate IsTree(records: seq<TreeRecord>) {
    && ValidTree(Blobs(records))
    && forall i | 0 <= i < |records| ::
         IsPrintable(records[i]) && (records[i].kind == "blob" ==> IsSafeBlob(records[i]))
  }

  predicate IsSafeBlob(r: TreeRecord) {
    IsObjectId(r.objectId) && IsRepositoryPath(r.path)
  }

  lemma UnmarkedHasNoDefect(records: seq<TreeRecord>, k: nat, maximum: nat)
    requires IsTree(records) && k < |records| && |Blobs(records[..k])| < maximum
    requires forall i | 0 <= i < |records| :: !IsMarked(records[i])
    ensures Defect(records, k, maximum).None?
  {
    hide IsRepositoryPath, IsObjectId, HasPath;
    assert IsPrintable(records[k]) && !IsMarked(records[k]);
    DecodedAsTheyAre(records[..k]);
    if records[k].kind == "blob" {
      assert IsSafeBlob(records[k]);
      BlobIsNew(records, k);
    }
  }

  /**
   * Of a tree with distinct safe paths the parser returns exactly the blobs if and only if no blob path begins with a
   * byte order mark and no record comes after as many blobs as the limit admits.
   */
  lemma TreeComesBackIff(records: seq<TreeRecord>, maximum: nat)
    requires IsTree(records)
    ensures ParseRest(PrintTree(records), maximum, []) == Ok(Blobs(records))
       <==> && (forall i | 0 <= i < |records| :: !IsMarked(records[i]))
            && (forall k | 0 <= k < |records| :: |Blobs(records[..k])| < maximum)
  {
    assert forall i | 0 <= i < |records| :: IsPrintable(records[i]);
    TreeRoundTrip(records, maximum);
    DecodedAsTheyAre(records);
    if k :| 0 <= k < |records| && Defect(records, k, maximum).Some? {
      var first := FirstDefect(records, k, maximum);
      if forall i | 0 <= i < |records| :: !IsMarked(records[i]) {
        if |Blobs(records[..k])| < maximum {
          UnmarkedHasNoDefect(records, k, maximum);
        }
      }
    } else {
      assert FreeOfDefects(records, maximum);
      forall k | 0 <= k < |records| ensures |Blobs(records[..k])| < maximum {
        assert Defect(records, k, maximum).None?;
        AsManyBlobs(records[..k]);
      }
    }
  }

  /** Two files whose paths differ only by the mark make the listing invalid. */
  lemma MarkedPathCollides(mode: string, a: string, b: string, path: string, maximum: nat)
    requires IsField(mode) && IsObjectId(a) && IsObjectId(b) && maximum >= 2
    requires IsRepositoryPath(path) && path[0] != BYTE_ORDER_MARK && '\0' !in path
    ensures var plain := TreeRecord(mode, "blob", a, path);
      var marked := TreeRecord(mode, "blob", b, [BYTE_ORDER_MARK] + path);
      ParseRest(PrintTree([plain, marked]), maximum, []) == Err(InvalidTree)
  {
    var plain := TreeRecord(mode, "blob", a, path);
    var marked := TreeRecord(mode, "blob", b, [BYTE_ORDER_MARK] + path);
    var records := [plain, marked];
    assert ([BYTE_ORDER_MARK] + path)[1..] == path;
    FieldsOfIds(a);
    FieldsOfIds(b);
    assert IsPrintable(plain) && IsPrintable(marked);
    hide IsRepositoryPath, IsObjectId, IsField;
    assert records[..0] == [] && records[..1] == [plain] && [plain][..0] == [];
    assert DecodedBlobs([plain]) == [File(path, a)];
    assert [File(path, a)][0].path == path;
    assert Defect(records, 0, maximum).None? && Defect(records, 1, maximum) == Some(InvalidTree);
    assert IsFirstDefect(records, 1, maximum);
    TreeRoundTrip(records, maximum);
  }

  lemma FieldsOfIds(id: string)
    requires IsObjectId(id)
    ensures IsField(id)
  {
    forall i | 0 <= i < |id| ensures IsFieldCharacter(id[i]) {
      assert IsLowerHex(id[i]);
    }
  }
}
