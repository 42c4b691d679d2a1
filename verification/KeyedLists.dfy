/** Lists whose entries have a text key: sorting, filtering, and distinct keys. */
module KeyedLists {

  /** Any comparator of keys will do. */
  type Comparator = (string, string) -> bool

  predicate DistinctBy<T>(key: T -> string, xs: seq<T>) {
    forall i, j | 0 <= i < j < |xs| :: key(xs[i]) != key(xs[j])
  }

  function Insert<T>(key: T -> string, before: Comparator, x: T, sorted: seq<T>): seq<T> {
    if sorted == [] || before(key(x), key(sorted[0])) then [x] + sorted
    else [sorted[0]] + Insert(key, before, x, sorted[1..])
  }

  /** A stable sort. */
  function Sort<T>(key: T -> string, before: Comparator, xs: seq<T>): seq<T> {
    if xs == [] then [] else Insert(key, before, xs[|xs| - 1], Sort(key, before, xs[..|xs| - 1]))
  }

  lemma {:induction false} InsertPermutes<T>(key: T -> string, before: Comparator, x: T, sorted: seq<T>)
    ensures multiset(Insert(key, before, x, sorted)) == multiset(sorted) + multiset{x}
  {
    if sorted != [] {
      InsertPermutes(key, before, x, sorted[1..]);
      assert sorted == [sorted[0]] + sorted[1..];
    }
  }

  lemma {:induction false} SortPermutes<T>(key: T -> string, before: Comparator, xs: seq<T>)
    ensures multiset(Sort(key, before, xs)) == multiset(xs)
  {
    hide Insert;
    if xs != [] {
      var front, last := xs[..|xs| - 1], xs[|xs| - 1];
      SortPermutes(key, before, front);
      InsertPermutes(key, before, last, Sort(key, before, front));
      assert xs == front + [last];
    }
  }

  ghost function Keys<T>(key: T -> string, xs: seq<T>): set<string> {
    set i | 0 <= i < |xs| :: key(xs[i])
  }

  /** Keys are distinct exactly when there are as many of them as entries. */
  lemma {:induction false} DistinctCount<T>(key: T -> string, xs: seq<T>)
    ensures |Keys(key, xs)| <= |xs|
    ensures |Keys(key, xs)| == |xs| <==> DistinctBy(key, xs)
  {
    if xs != [] {
      var front, last := xs[..|xs| - 1], xs[|xs| - 1];
      DistinctCount(key, front);
      assert forall i | 0 <= i < |front| :: front[i] == xs[i];
      assert Keys(key, xs) == Keys(key, front) + {key(last)} by {
        assert key(last) == key(xs[|xs| - 1]);
      }
      if key(last) in Keys(key, front) {
        assert Keys(key, xs) == Keys(key, front);
        var i :| 0 <= i < |front| && key(front[i]) == key(last);
        assert !DistinctBy(key, xs);
      }
    }
  }

  ghost predicate Rearranged<T>(key: T -> string, xs: seq<T>, ys: seq<T>) {
    && |xs| == |ys|
    && (forall i | 0 <= i < |xs| :: xs[i] in ys)
    && (forall i | 0 <= i < |ys| :: ys[i] in xs)
    && (DistinctBy(key, xs) <==> DistinctBy(key, ys))
  }

  lemma PermutationMeaning<T>(key: T -> string, xs: seq<T>, ys: seq<T>)
    requires multiset(xs) == multiset(ys)
    ensures Rearranged(key, xs, ys)
  {
    assert |xs| == |multiset(xs)| == |multiset(ys)| == |ys|;
    SameMembers(xs, ys);
    SameMembers(ys, xs);
    SameKeys(key, xs, ys);
    SameKeys(key, ys, xs);
    DistinctCount(key, xs);
    DistinctCount(key, ys);
    assert Keys(key, xs) == Keys(key, ys);
    hide Keys, DistinctBy;
  }

  /** A sort keeps the members of a list, and keys that were distinct stay so. */
  lemma SortMeaning<T>(key: T -> string, before: Comparator, xs: seq<T>)
    ensures Rearranged(key, xs, Sort(key, before, xs))
  {
    SortPermutes(key, before, xs);
    PermutationMeaning(key, xs, Sort(key, before, xs));
  }

  lemma SameMembers<T>(xs: seq<T>, ys: seq<T>)
    requires multiset(xs) == multiset(ys)
    ensures forall i | 0 <= i < |xs| :: xs[i] in ys
  {
    forall i | 0 <= i < |xs| ensures xs[i] in ys {
      assert xs[i] in multiset(xs);
    }
  }

  lemma SameKeys<T>(key: T -> string, xs: seq<T>, ys: seq<T>)
    requires forall i | 0 <= i < |xs| :: xs[i] in ys
    ensures Keys(key, xs) <= Keys(key, ys)
  {
    forall i | 0 <= i < |xs| ensures key(xs[i]) in Keys(key, ys) {
      var k :| 0 <= k < |ys| && ys[k] == xs[i];
    }
  }

  function Filter<T>(keep: T -> bool, xs: seq<T>): seq<T> {
    if xs == [] then []
    else Filter(keep, xs[..|xs| - 1]) + (if keep(xs[|xs| - 1]) then [xs[|xs| - 1]] else [])
  }

  lemma {:induction false} FilterMeaning<T>(key: T -> string, keep: T -> bool, xs: seq<T>)
    ensures forall i | 0 <= i < |xs| && keep(xs[i]) :: xs[i] in Filter(keep, xs)
    ensures forall i | 0 <= i < |Filter(keep, xs)| :: Filter(keep, xs)[i] in xs && keep(Filter(keep, xs)[i])
    ensures DistinctBy(key, xs) ==> DistinctBy(key, Filter(keep, xs))
  {
    if xs != [] {
      var front, last := xs[..|xs| - 1], xs[|xs| - 1];
      FilterMeaning(key, keep, front);
      assert xs == front + [last];
      var filtered := Filter(keep, front);
      forall i | DistinctBy(key, xs) && 0 <= i < |filtered| ensures key(filtered[i]) != key(last) {
        var k :| 0 <= k < |front| && front[k] == filtered[i];
        assert key(xs[k]) != key(xs[|xs| - 1]);
      }
    }
  }

  // ----- sortedness

  ghost predicate IsTotalOrder(before: Comparator) {
    && (forall a, b :: before(a, b) ==> !before(b, a))
    && (forall a, b :: before(a, b) || a == b || before(b, a))
    && (forall a, b, c :: before(a, b) && before(b, c) ==> before(a, c))
  }

  predicate IsSorted<T>(key: T -> string, before: Comparator, xs: seq<T>) {
    forall i, j | 0 <= i < j < |xs| :: !before(key(xs[j]), key(xs[i]))
  }

  lemma {:induction false} InsertSorts<T>(key: T -> string, before: Comparator, x: T, sorted: seq<T>)
    requires IsTotalOrder(before) && IsSorted(key, before, sorted)
    ensures IsSorted(key, before, Insert(key, before, x, sorted))
  {
    if sorted != [] {
      if before(key(x), key(sorted[0])) {
        forall j | 0 <= j < |sorted| ensures !before(key(sorted[j]), key(x)) {
          assert j > 0 ==> !before(key(sorted[j]), key(sorted[0]));
        }
      } else {
        var rest := Insert(key, before, x, sorted[1..]);
        InsertSorts(key, before, x, sorted[1..]);
        InsertPermutes(key, before, x, sorted[1..]);
        forall j | 0 <= j < |rest| ensures !before(key(rest[j]), key(sorted[0])) {
          assert rest[j] in multiset(rest);
          if rest[j] != x {
            assert rest[j] in sorted[1..];
            var k :| 0 <= k < |sorted| - 1 && sorted[1..][k] == rest[j];
            assert !before(key(sorted[k + 1]), key(sorted[0]));
          }
        }
      }
    }
  }

  lemma {:induction false} SortSorts<T>(key: T -> string, before: Comparator, xs: seq<T>)
    requires IsTotalOrder(before)
    ensures IsSorted(key, before, Sort(key, before, xs))
  {
    if xs != [] {
      SortSorts(key, before, xs[..|xs| - 1]);
      InsertSorts(key, before, xs[|xs| - 1], Sort(key, before, xs[..|xs| - 1]));
    }
  }
}
