/** The listing of a repository's files: a walk with a stack of directories, and a sort. */
module RepositoryWalk {
  import opened Characters
  import opened KeyedLists
  import opened RepositoryPaths
  import opened SplitText
  import opened Wrappers

  datatype Node = FileNode | DirectoryNode(entries: seq<Entry>) | LinkNode | OtherNode

  datatype Entry = Entry(name: string, node: Node)

  const MAXIMUM_TOOL_PATH_LENGTH := 1_024

  /** `safeRelativePath` does not throw. */
  predicate IsSafePath(path: string) {
    && 1 <= Utf16Length(path) <= MAXIMUM_TOOL_PATH_LENGTH
    && '\\' !in path && ':' !in path
    && (forall i | 0 <= i < |path| :: !IsControl(path[i]))
    && (var parts := Split(path, '/');
        forall i | 0 <= i < |parts| :: parts[i] != "" && parts[i] != "." && parts[i] != "..")
  }

  function PathOf(names: seq<string>): string {
    Join(names, '/')
  }

  // ----- what is reachable

  /** The paths of the regular files below some entries, links not followed. */
  function Files(prefix: seq<string>, entries: seq<Entry>): multiset<string>
    decreases entries
  {
    if entries == [] then multiset{}
    else FilesAt(prefix, entries[0]) + Files(prefix, entries[1..])
  }

  function FilesAt(prefix: seq<string>, e: Entry): multiset<string>
    decreases e
  {
    match e.node
    case FileNode => multiset{PathOf(prefix + [e.name])}
    case DirectoryNode(entries) => Files(prefix + [e.name], entries)
    case _ => multiset{}
  }

  /** From one of these entries each leads to the next, being a directory that holds it, and the last is a file. */
  predicate LeadsToFile(entries: seq<Entry>, chain: seq<Entry>) {
    && chain != [] && chain[0] in entries
    && (forall i | 0 <= i < |chain| - 1 :: chain[i].node.DirectoryNode? && chain[i + 1] in chain[i].node.entries)
    && chain[|chain| - 1].node.FileNode?
  }

  function NamesAlong(chain: seq<Entry>): seq<string> {
    seq(|chain|, i requires 0 <= i < |chain| => chain[i].name)
  }

  /** A chain of entries names the file. */
  ghost predicate IsReached(prefix: seq<string>, entries: seq<Entry>, path: string) {
    exists chain :: LeadsToFile(entries, chain) && path == PathOf(prefix + NamesAlong(chain))
  }

  lemma FirstOfChain(prefix: seq<string>, chain: seq<Entry>)
    requires chain != []
    ensures prefix + NamesAlong(chain) == prefix + [chain[0].name] + NamesAlong(chain[1..])
  {
  }

  lemma {:induction false} ChainsAreFound(prefix: seq<string>, entries: seq<Entry>, chain: seq<Entry>)
    requires LeadsToFile(entries, chain)
    ensures PathOf(prefix + NamesAlong(chain)) in Files(prefix, entries)
    decreases entries
  {
    hide PathOf, NamesAlong;
    var e := entries[0];
    if chain[0] == e {
      FirstOfChain(prefix, chain);
      if |chain| == 1 {
        assert NamesAlong(chain[1..]) == [] by { NoNames(chain[1..]); }
        assert prefix + [e.name] + [] == prefix + [e.name];
      } else {
        assert chain[1] in e.node.entries;
        ChainsAreFound(prefix + [e.name], e.node.entries, chain[1..]);
      }
    } else {
      ChainsAreFound(prefix, entries[1..], chain);
    }
  }

  lemma NoNames(chain: seq<Entry>)
    requires chain == []
    ensures NamesAlong(chain) == []
  {
  }

  lemma {:induction false} FoundAreReached(prefix: seq<string>, entries: seq<Entry>, path: string)
      returns (chain: seq<Entry>)
    requires path in Files(prefix, entries)
    ensures LeadsToFile(entries, chain) && path == PathOf(prefix + NamesAlong(chain))
    decreases entries
  {
    hide PathOf, NamesAlong;
    var e := entries[0];
    if path !in FilesAt(prefix, e) {
      chain := FoundAreReached(prefix, entries[1..], path);
    } else if e.node.FileNode? {
      chain := [e];
      FirstOfChain(prefix, chain);
      NoNames(chain[1..]);
      assert prefix + [e.name] + [] == prefix + [e.name];
    } else {
      var rest := FoundAreReached(prefix + [e.name], e.node.entries, path);
      chain := [e] + rest;
      assert chain[1..] == rest;
      FirstOfChain(prefix, chain);
    }
  }

  /** Exactly the files that a chain of directories leads to are found. */
  lemma FilesAreTheReached(prefix: seq<string>, entries: seq<Entry>, path: string)
    ensures path in Files(prefix, entries) <==> IsReached(prefix, entries, path)
  {
    hide Files, LeadsToFile, PathOf;
    if path in Files(prefix, entries) {
      var chain := FoundAreReached(prefix, entries, path);
    }
    if chain :| LeadsToFile(entries, chain) && path == PathOf(prefix + NamesAlong(chain)) {
      ChainsAreFound(prefix, entries, chain);
    }
  }

  /** The number of entries below some entries. */
  function Weight(entries: seq<Entry>): nat
    decreases entries
  {
    if entries == [] then 0 else WeightAt(entries[0]) + Weight(entries[1..])
  }

  function WeightAt(e: Entry): nat
    decreases e
  {
    match e.node
    case DirectoryNode(entries) => 1 + Weight(entries)
    case _ => 0
  }

  function NameOf(e: Entry): string {
    e.name
  }

  lemma {:induction false} InsertKeeps(prefix: seq<string>, before: Comparator, e: Entry, sorted: seq<Entry>)
    ensures Files(prefix, Insert(NameOf, before, e, sorted)) == FilesAt(prefix, e) + Files(prefix, sorted)
    ensures Weight(Insert(NameOf, before, e, sorted)) == WeightAt(e) + Weight(sorted)
  {
    if sorted != [] && !before(NameOf(e), NameOf(sorted[0])) {
      InsertKeeps(prefix, before, e, sorted[1..]);
      assert Insert(NameOf, before, e, sorted)[1..] == Insert(NameOf, before, e, sorted[1..]);
    } else {
      assert ([e] + sorted)[1..] == sorted;
    }
  }

  lemma {:induction false} LastEntry(prefix: seq<string>, front: seq<Entry>, last: Entry)
    ensures Files(prefix, front + [last]) == Files(prefix, front) + FilesAt(prefix, last)
    ensures Weight(front + [last]) == Weight(front) + WeightAt(last)
  {
    if front == [] {
      assert [] + [last] == [last] && [last][1..] == [];
    } else {
      assert (front + [last])[1..] == front[1..] + [last];
      LastEntry(prefix, front[1..], last);
    }
  }

  /** The order of the entries of a directory does not matter. */
  lemma {:induction false} SortKeeps(prefix: seq<string>, before: Comparator, entries: seq<Entry>)
    ensures Files(prefix, Sort(NameOf, before, entries)) == Files(prefix, entries)
    ensures Weight(Sort(NameOf, before, entries)) == Weight(entries)
  {
    hide Files, Weight, FilesAt, WeightAt, Insert;
    if entries != [] {
      var front, last := entries[..|entries| - 1], entries[|entries| - 1];
      SortKeeps(prefix, before, front);
      InsertKeeps(prefix, before, last, Sort(NameOf, before, front));
      assert entries == front + [last];
      LastEntry(prefix, front, last);
    }
  }

  // ----- the walk

  datatype Pending = Pending(prefix: seq<string>, entries: seq<Entry>)

  function PendingFiles(pending: seq<Pending>): multiset<string> {
    if pending == [] then multiset{}
    else
      var last := pending[|pending| - 1];
      PendingFiles(pending[..|pending| - 1]) + Files(last.prefix, last.entries)
  }

  function PendingWeight(pending: seq<Pending>): nat {
    if pending == [] then 0
    else PendingWeight(pending[..|pending| - 1]) + 1 + Weight(pending[|pending| - 1].entries)
  }

  lemma Pushed(pending: seq<Pending>, p: Pending)
    ensures PendingFiles(pending + [p]) == PendingFiles(pending) + Files(p.prefix, p.entries)
    ensures PendingWeight(pending + [p]) == PendingWeight(pending) + 1 + Weight(p.entries)
  {
    assert (pending + [p])[..|pending|] == pending;
  }

  lemma FirstEntry(prefix: seq<string>, entries: seq<Entry>, i: nat)
    requires i < |entries|
    ensures Files(prefix, entries[i..]) == FilesAt(prefix, entries[i]) + Files(prefix, entries[i + 1..])
    ensures Weight(entries[i..]) == WeightAt(entries[i]) + Weight(entries[i + 1..])
  {
    assert entries[i..][1..] == entries[i + 1..];
  }

  /** Some file is unsafe to name, or there are more than the limit. */
  predicate Refused(files: multiset<string>, maximum: nat) {
    |files| > maximum || exists path | path in files :: !IsSafePath(path)
  }

  /** `allFiles` without the final sort; `None` is a failure. */
  method Walk(prefix: seq<string>, entries: seq<Entry>, maximum: nat, before: Comparator)
      returns (files: Option<seq<string>>)
    ensures files.None? <==> Refused(Files(prefix, entries), maximum)
    ensures files.Some? ==> multiset(files.value) == Files(prefix, entries)
  {
    hide Refused, IsSafePath, Files, Weight, Sort;
    var found: seq<string> := [];
    var pending := [Pending(prefix, entries)];
    ghost var all := Files(prefix, entries);
    assert pending[..0] == [];
    while pending != []
      invariant multiset(found) + PendingFiles(pending) == all
      invariant |found| <= maximum && forall i | 0 <= i < |found| :: IsSafePath(found[i])
      decreases PendingWeight(pending)
    {
      var top := pending[|pending| - 1];
      pending := pending[..|pending| - 1];
      SortKeeps(top.prefix, before, top.entries);
      var step := WalkDirectory(top.prefix, Sort(NameOf, before, top.entries), found, pending, maximum);
      if step.None? {
        RefusedMonotone(multiset(found) + Files(top.prefix, top.entries), all, maximum);
        return None;
      }
      found, pending := step.value.0, step.value.1;
    }
    assert multiset(found) == all;
    AllSafe(found, maximum);
    return Some(found);
  }

  lemma AllSafe(found: seq<string>, maximum: nat)
    requires |found| <= maximum && forall i | 0 <= i < |found| :: IsSafePath(found[i])
    ensures !Refused(multiset(found), maximum)
  {
    hide IsSafePath;
  }

  lemma RefusedMonotone(a: multiset<string>, b: multiset<string>, maximum: nat)
    requires a <= b && Refused(a, maximum)
    ensures Refused(b, maximum)
  {
    hide IsSafePath;
    assert b == a + (b - a);
    assert |b| == |a| + |b - a|;
  }

  /** One directory: its files are found, and its directories wait on the stack. */
  method WalkDirectory(
      prefix: seq<string>, entries: seq<Entry>, found: seq<string>, pending: seq<Pending>, maximum: nat)
      returns (step: Option<(seq<string>, seq<Pending>)>)
    requires |found| <= maximum && forall i | 0 <= i < |found| :: IsSafePath(found[i])
    ensures step.None? ==> Refused(multiset(found) + Files(prefix, entries), maximum)
    ensures step.Some? ==>
      && multiset(step.value.0) + PendingFiles(step.value.1)
        == multiset(found) + PendingFiles(pending) + Files(prefix, entries)
      && PendingWeight(step.value.1) == PendingWeight(pending) + Weight(entries)
      && |step.value.0| <= maximum && forall i | 0 <= i < |step.value.0| :: IsSafePath(step.value.0[i])
  {
    hide IsSafePath, Refused, Files, Weight, PendingFiles, PendingWeight;
    var files, stack := found, pending;
    ghost var all := multiset(found) + PendingFiles(pending) + Files(prefix, entries);
    assert entries[0..] == entries;
    for i := 0 to |entries|
      invariant |files| <= maximum && forall k | 0 <= k < |files| :: IsSafePath(files[k])
      invariant multiset(files) + PendingFiles(stack) + Files(prefix, entries[i..]) == all
      invariant PendingWeight(stack) + Weight(entries[i..]) == PendingWeight(pending) + Weight(entries)
      invariant multiset(files) + Files(prefix, entries[i..]) <= multiset(found) + Files(prefix, entries)
    {
      var e := entries[i];
      FirstEntry(prefix, entries, i);
      match e.node {
        case DirectoryNode(children) =>
          Pushed(stack, Pending(prefix + [e.name], children));
          stack := stack + [Pending(prefix + [e.name], children)];
        case FileNode =>
          var path := PathOf(prefix + [e.name]);
          files := files + [path];
          if !IsSafePath(path) || |files| > maximum {
            TooFarGone(files, path, maximum);
            RefusedMonotone(multiset(files), multiset(found) + Files(prefix, entries), maximum);
            return None;
          }
        case _ =>
      }
    }
    assert entries[|entries|..] == [];
    NoEntries(prefix);
    return Some((files, stack));
  }

  lemma NoEntries(prefix: seq<string>)
    ensures Files(prefix, []) == multiset{} && Weight([]) == 0
  {
  }

  lemma TooFarGone(files: seq<string>, path: string, maximum: nat)
    requires path in files && (!IsSafePath(path) || |files| > maximum)
    ensures Refused(multiset(files), maximum)
  {
    hide IsSafePath;
    assert |multiset(files)| == |files| && path in multiset(files);
  }

  function Itself(path: string): string {
    path
  }

  /** `allFiles` below the node at a prefix; `None` is a failure. */
  method AllFiles(prefix: seq<string>, start: Option<Node>, maximum: nat, before: Comparator)
      returns (files: Option<seq<string>>)
    ensures files.Some?
      <==> start.Some? && start.value.DirectoryNode? && !Refused(Files(prefix, start.value.entries), maximum)
    ensures files.Some? ==> multiset(files.value) == Files(prefix, start.value.entries)
    ensures files.Some? && IsTotalOrder(before) ==> IsSorted(Itself, before, files.value)
  {
    if start.None? || !start.value.DirectoryNode? {
      return None;
    }
    var found := Walk(prefix, start.value.entries, maximum, before);
    if found.None? {
      return None;
    }
    SortPermutes(Itself, before, found.value);
    if IsTotalOrder(before) {
      SortSorts(Itself, before, found.value);
    }
    return Some(Sort(Itself, before, found.value));
  }

  // ----- each file once

  predicate IsName(name: string) {
    '/' !in name
  }

  /** Names are distinct within a directory and hold no slash, at every depth. */
  predicate Legal(entries: seq<Entry>)
    decreases entries
  {
    && (forall i, j | 0 <= i < j < |entries| :: entries[i].name != entries[j].name)
    && (forall i | 0 <= i < |entries| :: IsName(entries[i].name))
    && (forall i | 0 <= i < |entries| :: entries[i].node.DirectoryNode? ==> Legal(entries[i].node.entries))
  }

  predicate AllNames(names: seq<string>) {
    forall i | 0 <= i < |names| :: IsName(names[i])
  }

  /** The path lies below the entry of this name in the directory at the prefix. */
  predicate Below(path: string, prefix: seq<string>, name: string) {
    prefix + [name] <= Split(path, '/')
  }

  lemma {:induction false} FilesLieBelow(prefix: seq<string>, entries: seq<Entry>, path: string)
    requires AllNames(prefix) && Legal(entries) && path in Files(prefix, entries)
    ensures exists i | 0 <= i < |entries| :: Below(path, prefix, entries[i].name)
    decreases entries
  {
    if path in FilesAt(prefix, entries[0]) {
      FileLiesBelow(prefix, entries[0], path);
    } else {
      FilesLieBelow(prefix, entries[1..], path);
      var i :| 0 <= i < |entries| - 1 && Below(path, prefix, entries[1..][i].name);
      assert Below(path, prefix, entries[i + 1].name);
    }
  }

  lemma {:induction false} FileLiesBelow(prefix: seq<string>, e: Entry, path: string)
    requires AllNames(prefix) && IsName(e.name) && (e.node.DirectoryNode? ==> Legal(e.node.entries))
    requires path in FilesAt(prefix, e)
    ensures Below(path, prefix, e.name)
    decreases e
  {
    var names := prefix + [e.name];
    if e.node.FileNode? {
      SplitOfJoin(names, '/');
    } else {
      FilesLieBelow(names, e.node.entries, path);
      var i :| 0 <= i < |e.node.entries| && Below(path, names, e.node.entries[i].name);
      assert names <= names + [e.node.entries[i].name] <= Split(path, '/');
    }
  }

  lemma BelowOneName(path: string, prefix: seq<string>, a: string, b: string)
    requires Below(path, prefix, a) && Below(path, prefix, b)
    ensures a == b
  {
    assert Split(path, '/')[|prefix|] == (prefix + [a])[|prefix|] == (prefix + [b])[|prefix|];
  }

  /** In a legal tree no file is reached twice. */
  lemma {:induction false} EachFileOnce(prefix: seq<string>, entries: seq<Entry>, path: string)
    requires AllNames(prefix) && Legal(entries)
    ensures Files(prefix, entries)[path] <= 1
    decreases entries
  {
    if entries != [] {
      var e, rest := entries[0], entries[1..];
      EachFileOnce(prefix, rest, path);
      if e.node.DirectoryNode? {
        EachFileOnce(prefix + [e.name], e.node.entries, path);
      }
      if path in FilesAt(prefix, e) {
        FileLiesBelow(prefix, e, path);
        NotBelowOthers(prefix, entries, path);
      }
    }
  }

  lemma NotBelowOthers(prefix: seq<string>, entries: seq<Entry>, path: string)
    requires AllNames(prefix) && Legal(entries) && entries != [] && Below(path, prefix, entries[0].name)
    ensures path !in Files(prefix, entries[1..])
  {
    if path in Files(prefix, entries[1..]) {
      FilesLieBelow(prefix, entries[1..], path);
      var i :| 0 <= i < |entries| - 1 && Below(path, prefix, entries[1..][i].name);
      BelowOneName(path, prefix, entries[0].name, entries[i + 1].name);
      assert false;
    }
  }
}
