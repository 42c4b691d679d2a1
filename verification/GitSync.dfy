/** Discovery of a Git source: the difference of two trees, and the items of a snapshot or of a delta. */
module GitSync {
  import opened KeyedLists
  import opened Wrappers

  datatype File = File(path: string, blobOid: string)

  datatype Change = Upsert(path: string, blobOid: string) | Tombstone(path: string)

  function PathOf(f: File): string {
    f.path
  }

  function ChangedPath(c: Change): string {
    c.path
  }

  // ----- trees and their difference

  /** A tree as the parser returns it. */
  predicate ValidTree(files: seq<File>) {
    DistinctBy(PathOf, files)
  }

  /** `new Map(files.map(...))` */
  function ToMap(files: seq<File>): map<string, string> {
    if files == [] then map[]
    else ToMap(files[..|files| - 1])[files[|files| - 1].path := files[|files| - 1].blobOid]
  }

  function Lookup(m: map<string, string>, path: string): Option<string> {
    if path in m then Some(m[path]) else None
  }

  predicate HasPath(files: seq<File>, path: string) {
    exists i | 0 <= i < |files| :: files[i].path == path
  }

  lemma HasPathOfLast(files: seq<File>, path: string)
    requires files != []
    ensures HasPath(files, path)
       <==> HasPath(files[..|files| - 1], path) || path == files[|files| - 1].path
  {
    var front := files[..|files| - 1];
    assert forall i | 0 <= i < |front| :: front[i] == files[i];
  }

  lemma {:induction false} MappedPaths(files: seq<File>, path: string)
    ensures path in ToMap(files) <==> HasPath(files, path)
  {
    if files != [] {
      MappedPaths(files[..|files| - 1], path);
      HasPathOfLast(files, path);
    }
  }

  lemma {:induction false} MappedFile(files: seq<File>, i: nat)
    requires ValidTree(files) && i < |files|
    ensures files[i].path in ToMap(files) && ToMap(files)[files[i].path] == files[i].blobOid
  {
    if i < |files| - 1 {
      assert PathOf(files[i]) != PathOf(files[|files| - 1]);
      ValidFront(files);
      MappedFile(files[..|files| - 1], i);
    }
  }

  lemma ToMapMeaning(files: seq<File>)
    requires ValidTree(files)
    ensures forall path :: path in ToMap(files) <==> HasPath(files, path)
    ensures forall i | 0 <= i < |files| ::
      files[i].path in ToMap(files) && ToMap(files)[files[i].path] == files[i].blobOid
  {
    forall path ensures path in ToMap(files) <==> HasPath(files, path) {
      MappedPaths(files, path);
    }
    forall i | 0 <= i < |files|
      ensures files[i].path in ToMap(files) && ToMap(files)[files[i].path] == files[i].blobOid
    {
      MappedFile(files, i);
    }
  }

  /** The files of the current tree that the previous one lacks or holds with other content. */
  function Upserts(previous: map<string, string>, current: seq<File>): seq<Change> {
    if current == [] then []
    else
      var last := current[|current| - 1];
      Upserts(previous, current[..|current| - 1])
        + (if Lookup(previous, last.path) == Some(last.blobOid) then [] else [Upsert(last.path, last.blobOid)])
  }

  function Tombstones(current: map<string, string>, previous: seq<File>): seq<Change> {
    if previous == [] then []
    else
      var last := previous[|previous| - 1];
      Tombstones(current, previous[..|previous| - 1]) + (if last.path in current then [] else [Tombstone(last.path)])
  }

  function Diff(before: Comparator, previous: seq<File>, current: seq<File>): seq<Change> {
    Sort(ChangedPath, before, Upserts(ToMap(previous), current) + Tombstones(ToMap(current), previous))
  }

  /** What has to happen at a path to get from one map to another. */
  function ChangeBetween(a: map<string, string>, b: map<string, string>, path: string): Option<Change> {
    if Lookup(a, path) == Lookup(b, path) then None
    else if path in b then Some(Upsert(path, b[path]))
    else Some(Tombstone(path))
  }

  /** An upsert that the difference holds. */
  predicate IsUpsert(previous: map<string, string>, current: seq<File>, c: Change) {
    c.Upsert? && File(c.path, c.blobOid) in current && Lookup(previous, c.path) != Some(c.blobOid)
  }

  predicate IsTombstone(current: map<string, string>, previous: seq<File>, c: Change) {
    c.Tombstone? && c.path !in current && HasPath(previous, c.path)
  }

  lemma {:induction false} UpsertsMembers(previous: map<string, string>, current: seq<File>)
    ensures forall c :: c in Upserts(previous, current) <==> IsUpsert(previous, current, c)
  {
    if current != [] {
      var front, last := current[..|current| - 1], current[|current| - 1];
      UpsertsMembers(previous, front);
      assert current == front + [last];
    }
  }

  lemma {:induction false} TombstonesMembers(current: map<string, string>, previous: seq<File>)
    ensures forall c :: c in Tombstones(current, previous) <==> IsTombstone(current, previous, c)
  {
    if previous != [] {
      var front, last := previous[..|previous| - 1], previous[|previous| - 1];
      TombstonesMembers(current, front);
      forall c ensures IsTombstone(current, previous, c)
          <==> IsTombstone(current, front, c) || (last.path !in current && c == Tombstone(last.path)) {
        HasPathOfLast(previous, c.path);
      }
    }
  }

  lemma ValidFront(files: seq<File>)
    requires ValidTree(files) && files != []
    ensures ValidTree(files[..|files| - 1])
    ensures forall i | 0 <= i < |files| - 1 :: files[i].path != files[|files| - 1].path
  {
    assert forall i, j | 0 <= i < j < |files| :: PathOf(files[i]) != PathOf(files[j]);
  }

  lemma {:induction false} UpsertsDistinct(previous: map<string, string>, current: seq<File>)
    requires ValidTree(current)
    ensures DistinctBy(ChangedPath, Upserts(previous, current))
  {
    if current != [] {
      var front, last := current[..|current| - 1], current[|current| - 1];
      ValidFront(current);
      UpsertsDistinct(previous, front);
      UpsertsMembers(previous, front);
      var cs := Upserts(previous, front);
      forall i | 0 <= i < |cs| ensures ChangedPath(cs[i]) != last.path {
        assert IsUpsert(previous, front, cs[i]);
        var k :| 0 <= k < |front| && front[k] == File(cs[i].path, cs[i].blobOid);
        assert current[k].path == cs[i].path;
      }
      hide IsUpsert, ValidTree;
    }
  }

  lemma {:induction false} TombstonesDistinct(current: map<string, string>, previous: seq<File>)
    requires ValidTree(previous)
    ensures DistinctBy(ChangedPath, Tombstones(current, previous))
  {
    if previous != [] {
      var front, last := previous[..|previous| - 1], previous[|previous| - 1];
      ValidFront(previous);
      TombstonesDistinct(current, front);
      TombstonesMembers(current, front);
      var cs := Tombstones(current, front);
      forall i | 0 <= i < |cs| ensures ChangedPath(cs[i]) != last.path {
        assert IsTombstone(current, front, cs[i]);
        var k :| 0 <= k < |front| && front[k].path == cs[i].path;
        assert previous[k].path == cs[i].path;
      }
      hide IsTombstone, ValidTree;
    }
  }

  /** A list of changes that gets from one map to another: the change of every path that differs, once. */
  ghost predicate Leads(a: map<string, string>, b: map<string, string>, cs: seq<Change>) {
    && DistinctBy(ChangedPath, cs)
    && (forall i | 0 <= i < |cs| :: ChangeBetween(a, b, cs[i].path) == Some(cs[i]))
    && (forall path | ChangeBetween(a, b, path).Some? :: ChangeBetween(a, b, path).value in cs)
  }

  /** The difference of two trees holds exactly the changes between them. */
  lemma DiffMeaning(before: Comparator, previous: seq<File>, current: seq<File>)
    requires ValidTree(previous) && ValidTree(current)
    ensures Leads(ToMap(previous), ToMap(current), Diff(before, previous, current))
  {
    var a, b := ToMap(previous), ToMap(current);
    var ups, downs := Upserts(a, current), Tombstones(b, previous);
    UpsertsMembers(a, current);
    UpsertsDistinct(a, current);
    TombstonesMembers(b, previous);
    TombstonesDistinct(b, previous);
    forall c ensures c in ups || c in downs <==> ChangeBetween(a, b, c.path) == Some(c) {
      ToMapMeaning(previous);
      ToMapMeaning(current);
      hide Upserts, Tombstones;
      MembersAreChanges(previous, current, c);
    }
    hide Upserts, Tombstones, ToMap, IsUpsert, IsTombstone;
    LeadsUnsorted(a, b, ups, downs);
    SortedLeads(before, a, b, ups + downs);
  }

  lemma MembersAreChanges(previous: seq<File>, current: seq<File>, c: Change)
    requires ValidTree(previous) && ValidTree(current)
    ensures var a, b := ToMap(previous), ToMap(current);
      (IsUpsert(a, current, c) || IsTombstone(b, previous, c)) <==> ChangeBetween(a, b, c.path) == Some(c)
  {
    var a, b := ToMap(previous), ToMap(current);
    ToMapMeaning(previous);
    ToMapMeaning(current);
    if c.path in b {
      var k :| 0 <= k < |current| && current[k].path == c.path;
      assert current[k] == File(c.path, b[c.path]);
    }
  }

  lemma LeadsUnsorted(a: map<string, string>, b: map<string, string>, ups: seq<Change>, downs: seq<Change>)
    requires DistinctBy(ChangedPath, ups) && DistinctBy(ChangedPath, downs)
    requires forall c :: c in ups || c in downs <==> ChangeBetween(a, b, c.path) == Some(c)
    requires forall c | c in ups :: c.Upsert?
    requires forall c | c in downs :: c.Tombstone?
    ensures Leads(a, b, ups + downs)
  {
    var all := ups + downs;
    forall i | 0 <= i < |all| ensures ChangeBetween(a, b, all[i].path) == Some(all[i]) {
      assert all[i] in ups || all[i] in downs;
    }
    forall i, j | 0 <= i < j < |all| ensures ChangedPath(all[i]) != ChangedPath(all[j]) {
      if j < |ups| {
        assert ChangedPath(ups[i]) != ChangedPath(ups[j]);
      } else if i >= |ups| {
        assert ChangedPath(downs[i - |ups|]) != ChangedPath(downs[j - |ups|]);
      } else {
        assert all[i] in ups && all[j] in downs;
      }
    }
    forall path | ChangeBetween(a, b, path).Some? ensures ChangeBetween(a, b, path).value in all {
      var c := ChangeBetween(a, b, path).value;
      assert ChangeBetween(a, b, c.path) == Some(c);
    }
  }

  lemma SortedLeads(before: Comparator, a: map<string, string>, b: map<string, string>, cs: seq<Change>)
    requires Leads(a, b, cs)
    ensures Leads(a, b, Sort(ChangedPath, before, cs))
  {
    SortMeaning(ChangedPath, before, cs);
    hide ChangeBetween;
  }

  // ----- what a source discovers, and what its items do to the documents of a consumer

  /** Which paths a source covers, and how it orders them. */
  datatype Source = Source(included: string -> bool, before: Comparator)

  /** The fresh filtered snapshot of a tree: the blob of every included path. */
  function Snapshot(source: Source, files: seq<File>): map<string, string> {
    map path | path in ToMap(files) && source.included(path) :: ToMap(files)[path]
  }

  function SnapshotItems(source: Source, files: seq<File>): seq<File> {
    Sort(PathOf, source.before, Filter((f: File) => source.included(f.path), files))
  }

  function DeltaItems(source: Source, previous: seq<File>, current: seq<File>): seq<Change> {
    Sort(ChangedPath, source.before,
         Filter((c: Change) => source.included(c.path), Diff(source.before, previous, current)))
  }

  function Apply(documents: map<string, string>, c: Change): map<string, string> {
    match c
    case Upsert(path, blobOid) => documents[path := blobOid]
    case Tombstone(path) => documents - {path}
  }

  function ApplyAll(documents: map<string, string>, cs: seq<Change>): map<string, string> {
    if cs == [] then documents else Apply(ApplyAll(documents, cs[..|cs| - 1]), cs[|cs| - 1])
  }

  predicate Touches(cs: seq<Change>, path: string) {
    exists i :: 0 <= i < |cs| && cs[i].path == path
  }

  /** The items of a snapshot are the fresh filtered snapshot, entry for entry, in the order of their paths. */
  lemma SnapshotItemsMeaning(source: Source, files: seq<File>)
    requires ValidTree(files)
    ensures ValidTree(SnapshotItems(source, files))
    ensures ToMap(SnapshotItems(source, files)) == Snapshot(source, files)
    ensures IsTotalOrder(source.before) ==> IsSorted(PathOf, source.before, SnapshotItems(source, files))
  {
    SortedItems(source, files, []);
    var keep := (f: File) => source.included(f.path);
    var kept, items := Filter(keep, files), SnapshotItems(source, files);
    FilterMeaning(PathOf, keep, files);
    SortMeaning(PathOf, source.before, kept);
    ToMapMeaning(files);
    ToMapMeaning(items);
    var a, b := ToMap(items), Snapshot(source, files);
    hide ToMap, Filter, SnapshotItems, ValidTree;
    forall path ensures Lookup(a, path) == Lookup(b, path) {
      if path in a {
        var i :| 0 <= i < |items| && items[i].path == path;
        assert items[i] in files && keep(items[i]);
      }
      if path in b {
        var k :| 0 <= k < |files| && files[k].path == path;
        assert keep(files[k]) && files[k] in items;
      }
    }
    SameLookups(a, b);
  }

  lemma SortedItems(source: Source, files: seq<File>, cs: seq<Change>)
    ensures IsTotalOrder(source.before) ==> IsSorted(PathOf, source.before, SnapshotItems(source, files))
    ensures IsTotalOrder(source.before) ==> IsSorted(ChangedPath, source.before, Sort(ChangedPath, source.before, cs))
  {
    if IsTotalOrder(source.before) {
      SortSorts(PathOf, source.before, Filter((f: File) => source.included(f.path), files));
      SortSorts(ChangedPath, source.before, cs);
    }
    hide IsTotalOrder, IsSorted;
  }

  lemma SameLookups(a: map<string, string>, b: map<string, string>)
    requires forall path :: Lookup(a, path) == Lookup(b, path)
    ensures a == b
  {
    forall path ensures path in a <==> path in b {
      assert Lookup(a, path) == Lookup(b, path);
    }
    forall path | path in a ensures a[path] == b[path] {
      assert Lookup(a, path) == Lookup(b, path);
    }
  }

  lemma FilteredChanges(source: Source, previous: seq<File>, current: seq<File>)
    ensures forall path ::
      ChangeBetween(Snapshot(source, previous), Snapshot(source, current), path)
        == if source.included(path) then ChangeBetween(ToMap(previous), ToMap(current), path) else None
  {
    hide ToMap;
  }

  lemma FilteredLeads(
      source: Source, a: map<string, string>, b: map<string, string>, s: map<string, string>, t: map<string, string>,
      cs: seq<Change>)
    requires Leads(a, b, cs)
    requires forall path ::
      ChangeBetween(s, t, path) == if source.included(path) then ChangeBetween(a, b, path) else None
    ensures Leads(s, t, Filter((c: Change) => source.included(c.path), cs))
  {
    hide ChangeBetween;
    FilterMeaning(ChangedPath, (c: Change) => source.included(c.path), cs);
    hide Filter;
    forall path | ChangeBetween(s, t, path).Some? ensures ChangeBetween(a, b, path).value.path == path {
      ChangeOfPath(a, b, path);
    }
  }

  lemma ChangeOfPath(a: map<string, string>, b: map<string, string>, path: string)
    ensures ChangeBetween(a, b, path).Some? ==> ChangeBetween(a, b, path).value.path == path
  {
  }

  /** The items of a delta lead from one filtered snapshot to the other, in the order of their paths. */
  lemma DeltaItemsMeaning(source: Source, previous: seq<File>, current: seq<File>)
    requires ValidTree(previous) && ValidTree(current)
    ensures Leads(Snapshot(source, previous), Snapshot(source, current), DeltaItems(source, previous, current))
    ensures IsTotalOrder(source.before) ==> IsSorted(ChangedPath, source.before, DeltaItems(source, previous, current))
  {
    hide Leads, Snapshot, ToMap, Diff, Filter, ChangeBetween, ValidTree, Sort, IsSorted, IsTotalOrder;
    var s, t := Snapshot(source, previous), Snapshot(source, current);
    var cs := Diff(source.before, previous, current);
    DiffMeaning(source.before, previous, current);
    FilteredChanges(source, previous, current);
    FilteredLeads(source, ToMap(previous), ToMap(current), s, t, cs);
    var kept := Filter((c: Change) => source.included(c.path), cs);
    SortedLeads(source.before, s, t, kept);
    SortedItems(source, [], kept);
  }

  /** Changes set the paths they touch to their new state and leave the others alone, whatever was there before. */
  lemma {:induction false} Applied(
      a: map<string, string>, b: map<string, string>, documents: map<string, string>, cs: seq<Change>, path: string)
    requires forall i | 0 <= i < |cs| :: ChangeBetween(a, b, cs[i].path) == Some(cs[i])
    ensures Lookup(ApplyAll(documents, cs), path) == Lookup(if Touches(cs, path) then b else documents, path)
  {
    if cs != [] {
      var front, last := cs[..|cs| - 1], cs[|cs| - 1];
      Applied(a, b, documents, front, path);
      assert ChangeBetween(a, b, last.path) == Some(last);
      assert Touches(cs, path) <==> Touches(front, path) || last.path == path by {
        assert forall i | 0 <= i < |front| :: front[i] == cs[i];
      }
    }
  }

  lemma LeadsTouches(a: map<string, string>, b: map<string, string>, cs: seq<Change>, path: string)
    requires Leads(a, b, cs)
    ensures Touches(cs, path) <==> Lookup(a, path) != Lookup(b, path)
  {
    if Touches(cs, path) {
      var i :| 0 <= i < |cs| && cs[i].path == path;
      assert ChangeBetween(a, b, cs[i].path) == Some(cs[i]);
    }
    if ChangeBetween(a, b, path).Some? {
      var i :| 0 <= i < |cs| && cs[i] == ChangeBetween(a, b, path).value;
    }
  }

  /** Incremental equals fresh: a delta takes the snapshot of one commit to the snapshot of the other. */
  lemma DeltaReachesSnapshot(source: Source, previous: seq<File>, current: seq<File>)
    requires ValidTree(previous) && ValidTree(current)
    ensures ApplyAll(Snapshot(source, previous), DeltaItems(source, previous, current)) == Snapshot(source, current)
  {
    var cs := DeltaItems(source, previous, current);
    DeltaItemsMeaning(source, previous, current);
    var a, b := Snapshot(source, previous), Snapshot(source, current);
    hide Snapshot, DeltaItems;
    forall path ensures Lookup(ApplyAll(a, cs), path) == Lookup(b, path) {
      Applied(a, b, a, cs, path);
      LeadsTouches(a, b, cs, path);
    }
    SameLookups(ApplyAll(a, cs), b);
  }

  // ----- a consumer that applies pages as they come, and is interrupted

  /** The path was changed by the interrupted delta, and the new target reverts it. */
  predicate Reverts(known: map<string, string>, target: map<string, string>, cs: seq<Change>) {
    exists i :: 0 <= i < |cs| && Lookup(known, cs[i].path) == Lookup(target, cs[i].path)
  }

  /** What a path holds after an interrupted delta towards one map and a whole delta towards another. */
  lemma InterruptedThenMoved(
      a: map<string, string>, b: map<string, string>, t: map<string, string>, done: seq<Change>, cs: seq<Change>,
      path: string)
    requires forall i | 0 <= i < |done| :: ChangeBetween(a, b, done[i].path) == Some(done[i])
    requires Leads(a, t, cs)
    ensures Lookup(ApplyAll(ApplyAll(a, done), cs), path)
      == Lookup(if Lookup(a, path) != Lookup(t, path) then t else if Touches(done, path) then b else a, path)
  {
    Applied(a, b, a, done, path);
    Applied(a, t, ApplyAll(a, done), cs, path);
    LeadsTouches(a, t, cs, path);
  }

  lemma MovedConvergesIff(
      a: map<string, string>, b: map<string, string>, t: map<string, string>, done: seq<Change>, cs: seq<Change>)
    requires forall i | 0 <= i < |done| :: ChangeBetween(a, b, done[i].path) == Some(done[i])
    requires Leads(a, t, cs)
    ensures ApplyAll(ApplyAll(a, done), cs) == t <==> !Reverts(a, t, done)
  {
    var end := ApplyAll(ApplyAll(a, done), cs);
    forall path ensures Lookup(end, path)
        == Lookup(if Lookup(a, path) != Lookup(t, path) then t else if Touches(done, path) then b else a, path)
    {
      InterruptedThenMoved(a, b, t, done, cs, path);
    }
    hide ApplyAll, Leads;
    if i :| 0 <= i < |done| && Lookup(a, done[i].path) == Lookup(t, done[i].path) {
      assert ChangeBetween(a, b, done[i].path) == Some(done[i]);
      assert Lookup(end, done[i].path) != Lookup(t, done[i].path);
    } else {
      forall path ensures Lookup(end, path) == Lookup(t, path) {
        if Touches(done, path) {
          var i :| 0 <= i < |done| && done[i].path == path;
        }
      }
      SameLookups(end, t);
    }
  }

  /**
   * An interrupted delta has applied its first changes only. The delta from the old cursor to a new target then
   * reaches the new snapshot exactly when none of those paths has its old blob back.
   */
  lemma MovedTargetConvergesIff(source: Source, known: seq<File>, first: seq<File>, target: seq<File>, n: nat)
    requires ValidTree(known) && ValidTree(first) && ValidTree(target)
    requires n <= |DeltaItems(source, known, first)|
    ensures var done := DeltaItems(source, known, first)[..n];
      ApplyAll(ApplyAll(Snapshot(source, known), done), DeltaItems(source, known, target)) == Snapshot(source, target)
      <==> !Reverts(Snapshot(source, known), Snapshot(source, target), done)
  {
    var all, cs := DeltaItems(source, known, first), DeltaItems(source, known, target);
    DeltaItemsMeaning(source, known, first);
    DeltaItemsMeaning(source, known, target);
    hide Snapshot, DeltaItems, ApplyAll, Reverts, ChangeBetween;
    assert forall i | 0 <= i < n :: all[..n][i] == all[i];
    MovedConvergesIff(Snapshot(source, known), Snapshot(source, first), Snapshot(source, target), all[..n], cs);
  }

  /** In particular the rerun to the same target always converges. */
  lemma RerunConverges(source: Source, known: seq<File>, target: seq<File>, n: nat)
    requires ValidTree(known) && ValidTree(target) && n <= |DeltaItems(source, known, target)|
    ensures var all := DeltaItems(source, known, target);
      ApplyAll(ApplyAll(Snapshot(source, known), all[..n]), all)
      == Snapshot(source, target)
  {
    MovedTargetConvergesIff(source, known, target, target, n);
    DeltaItemsMeaning(source, known, target);
    var all := DeltaItems(source, known, target);
    var a, t := Snapshot(source, known), Snapshot(source, target);
    forall i | 0 <= i < n ensures Lookup(a, all[i].path) != Lookup(t, all[i].path) {
      assert ChangeBetween(a, t, all[i].path) == Some(all[i]);
    }
    assert forall i | 0 <= i < n :: all[..n][i] == all[i];
  }
}
