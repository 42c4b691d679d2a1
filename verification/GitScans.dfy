/** Whole scans of a Git source, any of which may be interrupted, and the consumer that commits only complete ones. */
module GitScans {
  import opened GitSync
  import opened KeyedLists
  import opened Paging
  import opened Wrappers

  /** The committed state: the commit reached, and the blob of every document. */
  datatype SyncState = SyncState(cursor: Option<string>, documents: map<string, string>)

  /** One scan towards the commit that the reference names by then, of which `pagesRead` pages arrive. */
  datatype Scan = Scan(target: string, pageSize: Option<int>, pagesRead: nat, fullRescan: bool)

  /** The tree of a commit, which never changes; `None` when the listing is refused, as one above the tree limit is. */
  type Trees = string -> Option<seq<File>>

  /** The most entries that a snapshot or a delta may have. */
  const MAXIMUM_ENTRIES := 100_000

  function AsUpserts(files: seq<File>): seq<Change> {
    if files == [] then []
    else AsUpserts(files[..|files| - 1]) + [Upsert(files[|files| - 1].path, files[|files| - 1].blobOid)]
  }

  /** What there is to say about a target: a snapshot without a cursor, a delta with one; `None` is a thrown error. */
  function ItemsTowards(source: Source, trees: Trees, cursor: Option<string>, target: string): Option<seq<Change>> {
    var current :- trees(target);
    match cursor
    case None =>
      if |current| > MAXIMUM_ENTRIES then None else Some(AsUpserts(SnapshotItems(source, current)))
    case Some(from) =>
      var previous :- trees(from);
      if |Diff(source.before, previous, current)| > MAXIMUM_ENTRIES then None
      else Some(DeltaItems(source, previous, current))
  }

  /** A full rescan does not pass the cursor on. */
  function CursorOf(s: SyncState, scan: Scan): Option<string> {
    if scan.fullRescan then None else s.cursor
  }

  /** What a scan starts from: a snapshot replaces all documents. */
  function Base(s: SyncState, scan: Scan): map<string, string> {
    if CursorOf(s, scan).None? then map[] else s.documents
  }

  /** What `discover` yields; `None` when it throws. */
  function Discovered(source: Source, trees: Trees, cursor: Option<string>, scan: Scan): Option<seq<Page<Change>>> {
    var size :- PageSize(scan.pageSize);
    var items :- ItemsTowards(source, trees, cursor, scan.target);
    Some(Pages(items, scan.target, size))
  }

  /** The consumer's loop: it refuses a page after completion and an end before it. */
  method Collect(pages: seq<Page<Change>>) returns (collected: Option<(seq<Change>, string)>)
    ensures collected == Collected(pages)
  {
    var complete, cursor := false, "";
    var items: seq<Change> := [];
    for i := 0 to |pages|
      invariant complete <==> i > 0 && pages[i - 1].complete
      invariant forall k | 0 <= k < i - 1 :: !pages[k].complete
      invariant i > 0 ==> cursor == pages[i - 1].nextCursor
      invariant items == Items(pages[..i])
    {
      if complete {
        return None;
      }
      assert pages[..i + 1][..i] == pages[..i];
      items := items + pages[i].items;
      cursor := pages[i].nextCursor;
      complete := pages[i].complete;
    }
    assert pages[..|pages|] == pages;
    return if complete then Some((items, cursor)) else None;
  }

  function Collected(pages: seq<Page<Change>>): Option<(seq<Change>, string)> {
    if pages != [] && CompletesOnlyAtEnd(pages) then Some((Items(pages), pages[|pages| - 1].nextCursor)) else None
  }

  function Step(source: Source, trees: Trees, s: SyncState, scan: Scan): SyncState {
    var pages := Discovered(source, trees, CursorOf(s, scan), scan);
    if pages.None? then s
    else
      var collected := Collected(if scan.pagesRead < |pages.value| then pages.value[..scan.pagesRead] else pages.value);
      if collected.None? then s
      else SyncState(Some(collected.value.1), ApplyAll(Base(s, scan), collected.value.0))
  }

  function Run(source: Source, trees: Trees, s: SyncState, scans: seq<Scan>): SyncState {
    if scans == [] then s else Step(source, trees, Run(source, trees, s, scans[..|scans| - 1]), scans[|scans| - 1])
  }

  const START := SyncState(None, map[])

  ghost predicate ValidTrees(trees: Trees) {
    forall commit | trees(commit).Some? :: ValidTree(trees(commit).value)
  }

  lemma {:induction false} UpsertsBuild(files: seq<File>)
    ensures ApplyAll(map[], AsUpserts(files)) == ToMap(files)
  {
    if files != [] {
      UpsertsBuild(files[..|files| - 1]);
      var front, last := AsUpserts(files[..|files| - 1]), files[|files| - 1];
      assert AsUpserts(files)[..|front|] == front;
    }
  }

  /** A scan of which all pages arrive commits its target; one that is cut short or refused commits nothing. */
  lemma ScanCommitsWhole(source: Source, trees: Trees, s: SyncState, scan: Scan)
    ensures var pages := Discovered(source, trees, CursorOf(s, scan), scan);
      var after := Step(source, trees, s, scan);
      && (pages.None? || scan.pagesRead < |pages.value| ==> after == s)
      && (pages.Some? && scan.pagesRead >= |pages.value| ==>
            && after.cursor == Some(scan.target)
            && after.documents == ApplyAll(Base(s, scan), Items(pages.value)))
  {
    hide Pages, ApplyAll, ItemsTowards, Base;
    var cursor := CursorOf(s, scan);
    var pages := Discovered(source, trees, cursor, scan);
    if pages.Some? {
      var items := ItemsTowards(source, trees, cursor, scan.target).value;
      PagesMeaning(items, scan.target, PageSize(scan.pageSize).value);
      if scan.pagesRead < |pages.value| {
        var read := pages.value[..scan.pagesRead];
        assert read != [] ==> !read[|read| - 1].complete;
      }
    }
  }

  /** The documents are those of the commit that the cursor names. */
  ghost predicate InStep(source: Source, trees: Trees, s: SyncState) {
    match s.cursor
    case None => s.documents == map[]
    case Some(commit) => trees(commit).Some? && s.documents == Snapshot(source, trees(commit).value)
  }

  /**
   * For every sequence of target commits, page sizes, interruptions and full rescans, the documents are the fresh
   * filtered snapshot of the commit that the cursor names.
   */
  lemma {:induction false} DocumentsAreSnapshot(source: Source, trees: Trees, scans: seq<Scan>)
    requires ValidTrees(trees)
    ensures InStep(source, trees, Run(source, trees, START, scans))
  {
    if scans != [] {
      var before, scan := Run(source, trees, START, scans[..|scans| - 1]), scans[|scans| - 1];
      DocumentsAreSnapshot(source, trees, scans[..|scans| - 1]);
      ScanCommitsWhole(source, trees, before, scan);
      var pages := Discovered(source, trees, CursorOf(before, scan), scan);
      if pages.Some? && scan.pagesRead >= |pages.value| {
        ScanReachesSnapshot(source, trees, before, scan);
      }
      hide Step, Discovered, ApplyAll, Snapshot, Items, Base;
    }
  }

  lemma ScanReachesSnapshot(source: Source, trees: Trees, s: SyncState, scan: Scan)
    requires ValidTrees(trees) && Discovered(source, trees, CursorOf(s, scan), scan).Some? && InStep(source, trees, s)
    ensures trees(scan.target).Some?
    ensures ApplyAll(Base(s, scan), Items(Discovered(source, trees, CursorOf(s, scan), scan).value))
      == Snapshot(source, trees(scan.target).value)
  {
    var cursor, target := CursorOf(s, scan), trees(scan.target).value;
    PagesMeaning(ItemsTowards(source, trees, cursor, scan.target).value, scan.target, PageSize(scan.pageSize).value);
    hide Pages, Items, ApplyAll, SnapshotItems, DeltaItems, Snapshot, Diff, ToMap;
    if cursor.None? {
      UpsertsBuild(SnapshotItems(source, target));
      SnapshotItemsMeaning(source, target);
    } else {
      DeltaReachesSnapshot(source, trees(cursor.value).value, target);
    }
  }

  // ----- the limit

  /** The paths that two maps do not hold alike. */
  function Differing(a: map<string, string>, b: map<string, string>): set<string> {
    set path | path in a.Keys + b.Keys && Lookup(a, path) != Lookup(b, path)
  }

  /** The paths that two trees do not hold alike. */
  function ChangedPaths(previous: seq<File>, current: seq<File>): set<string> {
    Differing(ToMap(previous), ToMap(current))
  }

  lemma LeadsCounts(a: map<string, string>, b: map<string, string>, cs: seq<Change>)
    requires Leads(a, b, cs)
    ensures |cs| == |Differing(a, b)|
  {
    DistinctCount(ChangedPath, cs);
    forall path ensures path in Keys(ChangedPath, cs) <==> path in Differing(a, b) {
      if path in Differing(a, b) {
        var c := ChangeBetween(a, b, path).value;
        assert ChangedPath(c) == path && c in cs;
      }
      if path in Keys(ChangedPath, cs) {
        var i :| 0 <= i < |cs| && ChangedPath(cs[i]) == path;
        assert ChangeBetween(a, b, cs[i].path) == Some(cs[i]);
      }
    }
    assert Keys(ChangedPath, cs) == Differing(a, b);
  }

  lemma DiffCounts(before: Comparator, previous: seq<File>, current: seq<File>)
    requires ValidTree(previous) && ValidTree(current)
    ensures |Diff(before, previous, current)| == |ChangedPaths(previous, current)|
  {
    hide Diff, ToMap, Leads, Differing;
    DiffMeaning(before, previous, current);
    LeadsCounts(ToMap(previous), ToMap(current), Diff(before, previous, current));
  }

  /** A delta is refused exactly when a tree cannot be read or the trees differ at more paths than the limit. */
  lemma DeltaRefusedIff(source: Source, trees: Trees, from: string, scan: Scan)
    requires ValidTrees(trees) && PageSize(scan.pageSize).Some?
    ensures Discovered(source, trees, Some(from), scan).None?
       <==> || trees(from).None? || trees(scan.target).None?
            || |ChangedPaths(trees(from).value, trees(scan.target).value)| > MAXIMUM_ENTRIES
  {
    if trees(from).Some? && trees(scan.target).Some? {
      DiffCounts(source.before, trees(from).value, trees(scan.target).value);
    }
    hide Pages, DeltaItems, Diff, ChangedPaths;
  }

  lemma {:induction false} MappedCount(files: seq<File>)
    requires ValidTree(files)
    ensures |ToMap(files).Keys| == |files|
  {
    if files != [] {
      var front, last := files[..|files| - 1], files[|files| - 1];
      ValidFront(files);
      MappedCount(front);
      ToMapMeaning(front);
      assert ToMap(files).Keys == ToMap(front).Keys + {last.path};
    }
  }

  /**
   * The limit counts changes, not files: between trees without a common path, each of which a snapshot would accept,
   * a delta is refused exactly when together they have more files than the limit.
   */
  lemma DisjointTreesRefused(source: Source, trees: Trees, from: string, scan: Scan)
    requires ValidTrees(trees) && PageSize(scan.pageSize).Some? && trees(from).Some? && trees(scan.target).Some?
    requires ToMap(trees(from).value).Keys !! ToMap(trees(scan.target).value).Keys
    ensures Discovered(source, trees, Some(from), scan).None? <==>
      |trees(from).value| + |trees(scan.target).value| > MAXIMUM_ENTRIES
  {
    var previous, current := trees(from).value, trees(scan.target).value;
    DeltaRefusedIff(source, trees, from, scan);
    MappedCount(previous);
    MappedCount(current);
    assert ChangedPaths(previous, current) == ToMap(previous).Keys + ToMap(current).Keys;
    hide Discovered, ToMap;
  }

  // ----- exactly what a scan does

  /** A page size is allowed, the trees can be read, and neither snapshot nor delta exceeds the limit. */
  predicate IsAllowed(trees: Trees, from: Option<string>, scan: Scan) {
    && (scan.pageSize.Some? ==> 1 <= scan.pageSize.value <= 1_000)
    && trees(scan.target).Some?
    && match from
       case None => |trees(scan.target).value| <= 100_000
       case Some(commit) =>
         trees(commit).Some? && |ChangedPaths(trees(commit).value, trees(scan.target).value)| <= 100_000
  }

  lemma {:induction false} AsManyUpserts(files: seq<File>)
    ensures |AsUpserts(files)| == |files|
  {
    if files != [] {
      AsManyUpserts(files[..|files| - 1]);
    }
  }

  lemma SnapshotCounts(source: Source, files: seq<File>)
    requires ValidTree(files)
    ensures |AsUpserts(SnapshotItems(source, files))| == |Differing(map[], Snapshot(source, files))|
  {
    var items, documents := SnapshotItems(source, files), Snapshot(source, files);
    AsManyUpserts(items);
    SnapshotItemsMeaning(source, files);
    MappedCount(items);
    hide SnapshotItems, Snapshot, ToMap;
    assert Differing(map[], documents) == documents.Keys;
  }

  lemma AllowedAreDiscovered(source: Source, trees: Trees, from: Option<string>, scan: Scan)
    requires ValidTrees(trees)
    ensures IsAllowed(trees, from, scan) <==> Discovered(source, trees, from, scan).Some?
    ensures IsAllowed(trees, from, scan) ==>
      && PageSize(scan.pageSize).Some? && ItemsTowards(source, trees, from, scan.target).Some?
      && Discovered(source, trees, from, scan).value
         == Pages(ItemsTowards(source, trees, from, scan.target).value, scan.target, PageSize(scan.pageSize).value)
  {
    if from.Some? && trees(from.value).Some? && trees(scan.target).Some? {
      DiffCounts(source.before, trees(from.value).value, trees(scan.target).value);
    }
    hide Pages, DeltaItems, SnapshotItems, Diff, ChangedPaths, AsUpserts;
  }

  lemma ItemsCount(source: Source, trees: Trees, s: SyncState, scan: Scan)
    requires ValidTrees(trees) && InStep(source, trees, s) && IsAllowed(trees, CursorOf(s, scan), scan)
    ensures var items := ItemsTowards(source, trees, CursorOf(s, scan), scan.target);
      items.Some? && |items.value| == |Differing(Base(s, scan), Snapshot(source, trees(scan.target).value))|
  {
    var from, target := CursorOf(s, scan), trees(scan.target).value;
    AllowedAreDiscovered(source, trees, from, scan);
    hide Discovered, Pages, SnapshotItems, Snapshot, DeltaItems, Diff, ToMap, Differing, IsAllowed, Leads, AsUpserts;
    if from.None? {
      SnapshotCounts(source, target);
    } else {
      var previous := trees(from.value).value;
      DeltaItemsMeaning(source, previous, target);
      LeadsCounts(Snapshot(source, previous), Snapshot(source, target), DeltaItems(source, previous, target));
    }
  }

  /**
   * After any run, a scan that is allowed commits the snapshot of its target exactly when as many pages arrive as its
   * items need, the paths at which the documents differ from that snapshot; otherwise it changes nothing.
   */
  lemma ScanMeaning(source: Source, trees: Trees, scans: seq<Scan>, scan: Scan)
    requires ValidTrees(trees)
    ensures var s := Run(source, trees, START, scans);
      var from := if scan.fullRescan then None else s.cursor;
      var documents := if from.None? then map[] else s.documents;
      var size := if scan.pageSize.Some? then scan.pageSize.value else 100;
      Step(source, trees, s, scan)
        == if IsAllowed(trees, from, scan)
              && Suffice(scan.pagesRead, size, |Differing(documents, Snapshot(source, trees(scan.target).value))|)
           then SyncState(Some(scan.target), Snapshot(source, trees(scan.target).value))
           else s
  {
    hide Pages, Suffice, ApplyAll, ItemsTowards, Snapshot, IsAllowed, Step, Run, Differing, Items, Discovered;
    var s := Run(source, trees, START, scans);
    DocumentsAreSnapshot(source, trees, scans);
    AllowedAreDiscovered(source, trees, CursorOf(s, scan), scan);
    ScanCommitsWhole(source, trees, s, scan);
    if IsAllowed(trees, CursorOf(s, scan), scan) {
      ScanReachesSnapshot(source, trees, s, scan);
      ItemsCount(source, trees, s, scan);
      PagesCount(ItemsTowards(source, trees, CursorOf(s, scan), scan.target).value, scan.target,
                 PageSize(scan.pageSize).value, scan.pagesRead);
    }
  }
}
