/**
 * Configuration values, their canonical form with keys in a fixed order, and the JSON text (RFC 8259,
 * sections 4 to 7) that serves as the identity of a configuration.
 */
module CanonicalJson {
  import opened KeyOrder
  import opened Wrappers

  /** `N` are the finite numbers, with -0 and 0 as one number. `Members` lists an object in its own key order. */
  datatype Value<N> =
    | Null
    | Bool(b: bool)
    | Number(n: N)
    | NonFinite
    | Text(s: string)
    | List(items: seq<Value<N>>)
    | Object(members: seq<Member<N>>)
    | Unsupported

  datatype Member<N> = Member(key: string, value: Value<N>)

  // ----- canonical form

  /** `Object.fromEntries` of the entries sorted by key, as its keys are enumerated. */
  function SortByKey<N>(members: seq<Member<N>>): seq<Member<N>> {
    if members == [] then [] else Insert(members[0], SortByKey(members[1..]))
  }

  function Insert<N>(m: Member<N>, sorted: seq<Member<N>>): seq<Member<N>> {
    if sorted == [] || KeyBefore(m.key, sorted[0].key) then [m] + sorted
    else [sorted[0]] + Insert(m, sorted[1..])
  }

  /** `canonicalize`; `None` is the thrown `TypeError`. */
  function Canonicalize<N>(v: Value<N>): Option<Value<N>>
    decreases v
  {
    match v
    case NonFinite => None
    case Unsupported => None
    case List(items) =>
      var canonical :- CanonicalizeItems(items);
      Some(List(canonical))
    case Object(members) =>
      var canonical :- CanonicalizeMembers(members);
      Some(Object(SortByKey(canonical)))
    case _ => Some(v)
  }

  function CanonicalizeItems<N>(items: seq<Value<N>>): Option<seq<Value<N>>>
    decreases items
  {
    if items == [] then Some([])
    else
      var first :- Canonicalize(items[0]);
      var rest :- CanonicalizeItems(items[1..]);
      Some([first] + rest)
  }

  function CanonicalizeMembers<N>(members: seq<Member<N>>): Option<seq<Member<N>>>
    decreases members
  {
    if members == [] then Some([])
    else
      var first :- Canonicalize(members[0].value);
      var rest :- CanonicalizeMembers(members[1..]);
      Some([Member(members[0].key, first)] + rest)
  }

  // ----- what a configuration value is

  /** The keys of every object are distinct, as those of a JavaScript object always are. */
  ghost predicate HasDistinctKeys<N>(v: Value<N>)
    decreases v
  {
    match v
    case List(items) => forall i | 0 <= i < |items| :: HasDistinctKeys(items[i])
    case Object(members) =>
      && DistinctKeys(members)
      && forall i | 0 <= i < |members| :: HasDistinctKeys(members[i].value)
    case _ => true
  }

  ghost predicate DistinctKeys<N>(members: seq<Member<N>>) {
    forall i, j | 0 <= i < j < |members| :: members[i].key != members[j].key
  }

  /** Only finite numbers and JSON types occur, at every depth. */
  ghost predicate IsJson<N>(v: Value<N>)
    decreases v
  {
    match v
    case NonFinite => false
    case Unsupported => false
    case List(items) => forall i | 0 <= i < |items| :: IsJson(items[i])
    case Object(members) => forall i | 0 <= i < |members| :: IsJson(members[i].value)
    case _ => true
  }

  /** Equal up to the order of object keys, at every depth. */
  ghost predicate SameValue<N>(a: Value<N>, b: Value<N>)
    decreases a
  {
    match a
    case List(items) =>
      && b.List?
      && |items| == |b.items|
      && forall i | 0 <= i < |items| :: SameValue(items[i], b.items[i])
    case Object(members) =>
      && b.Object?
      && Keys(members) == Keys(b.members)
      && forall i, j | 0 <= i < |members| && 0 <= j < |b.members| && members[i].key == b.members[j].key ::
           SameValue(members[i].value, b.members[j].value)
    case _ => a == b
  }

  ghost function Keys<N>(members: seq<Member<N>>): set<string> {
    set i | 0 <= i < |members| :: members[i].key
  }

  // ----- sorting

  ghost predicate Ordered<N>(members: seq<Member<N>>) {
    forall i, j | 0 <= i < j < |members| :: KeyBefore(members[i].key, members[j].key)
  }

  ghost predicate Included<N>(xs: seq<Member<N>>, ys: seq<Member<N>>) {
    forall i | 0 <= i < |xs| :: xs[i] in ys
  }

  ghost predicate SameMembers<N>(xs: seq<Member<N>>, ys: seq<Member<N>>) {
    Included(xs, ys) && Included(ys, xs)
  }

  lemma {:induction false} InsertMembers<N>(m: Member<N>, sorted: seq<Member<N>>)
    ensures |Insert(m, sorted)| == |sorted| + 1
    ensures SameMembers(Insert(m, sorted), [m] + sorted)
  {
    hide KeyBefore;
    if sorted != [] && !KeyBefore(m.key, sorted[0].key) {
      var head, tail := sorted[0], sorted[1..];
      InsertMembers(m, tail);
      SameMembersCons(head, Insert(m, tail), [m] + tail);
      SwapSame(head, m, tail);
      SameMembersChains(Insert(m, sorted), [head] + ([m] + tail), [m] + sorted);
    }
  }

  lemma SwapSame<N>(a: Member<N>, b: Member<N>, rest: seq<Member<N>>)
    ensures SameMembers([a] + ([b] + rest), [b] + ([a] + rest))
  {
    var xs, ys := [a] + ([b] + rest), [b] + ([a] + rest);
    assert xs[0] == ys[1] && xs[1] == ys[0];
    assert forall i | 2 <= i < |xs| :: xs[i] == ys[i];
  }

  lemma {:induction false} InsertIntoOrdered<N>(m: Member<N>, sorted: seq<Member<N>>)
    requires Ordered(sorted)
    requires forall i | 0 <= i < |sorted| :: sorted[i].key != m.key
    ensures Ordered(Insert(m, sorted))
    ensures |Insert(m, sorted)| == |sorted| + 1
    ensures SameMembers(Insert(m, sorted), [m] + sorted)
  {
    hide KeyBefore;
    InsertMembers(m, sorted);
    if sorted != [] {
      KeyOrderIsTotal(m.key, sorted[0].key);
      if KeyBefore(m.key, sorted[0].key) {
        forall i | 0 < i < |sorted|
          ensures KeyBefore(m.key, sorted[i].key)
        {
          KeyOrderIsTransitive(m.key, sorted[0].key, sorted[i].key);
        }
      } else {
        var tail, rest := sorted[1..], Insert(m, sorted[1..]);
        InsertIntoOrdered(m, tail);
        forall i | 0 <= i < |rest|
          ensures KeyBefore(sorted[0].key, rest[i].key)
        {
          assert rest[i] in [m] + tail;
        }
      }
    }
  }

  lemma SameMembersChains<N>(xs: seq<Member<N>>, ys: seq<Member<N>>, zs: seq<Member<N>>)
    requires SameMembers(xs, ys) && SameMembers(ys, zs)
    ensures SameMembers(xs, zs)
  {
    forall i | 0 <= i < |xs|
      ensures xs[i] in zs
    {
      var j :| 0 <= j < |ys| && ys[j] == xs[i];
    }
    forall i | 0 <= i < |zs|
      ensures zs[i] in xs
    {
      var j :| 0 <= j < |ys| && ys[j] == zs[i];
    }
  }

  lemma SameMembersCons<N>(first: Member<N>, xs: seq<Member<N>>, ys: seq<Member<N>>)
    requires SameMembers(xs, ys)
    ensures SameMembers([first] + xs, [first] + ys)
  {
    forall i | 0 <= i < |xs| + 1
      ensures ([first] + xs)[i] in [first] + ys
    {
      assert i > 0 ==> xs[i - 1] in ys;
    }
    forall i | 0 <= i < |ys| + 1
      ensures ([first] + ys)[i] in [first] + xs
    {
      assert i > 0 ==> ys[i - 1] in xs;
    }
  }

  lemma FirstKeyIsNew<N>(members: seq<Member<N>>, sorted: seq<Member<N>>)
    requires DistinctKeys(members) && members != [] && SameMembers(sorted, members[1..])
    ensures forall i | 0 <= i < |sorted| :: sorted[i].key != members[0].key
  {
    forall i | 0 <= i < |sorted|
      ensures sorted[i].key != members[0].key
    {
      var j :| 0 <= j < |members| - 1 && members[1..][j] == sorted[i];
      assert members[j + 1] == sorted[i];
    }
  }

  lemma {:induction false} SortOrders<N>(members: seq<Member<N>>)
    requires DistinctKeys(members)
    ensures Ordered(SortByKey(members))
    ensures |SortByKey(members)| == |members|
    ensures SameMembers(SortByKey(members), members)
  {
    hide Insert, KeyBefore, Ordered, SameMembers;
    if members == [] {
      assert Ordered<N>([]) && SameMembers<N>([], []) by { NothingIsOrdered<N>(); }
    } else {
      var first, rest := members[0], members[1..];
      var sorted := SortByKey(rest);
      SortOrders(rest);
      FirstKeyIsNew(members, sorted);
      InsertIntoOrdered(first, sorted);
      SameMembersCons(first, sorted, rest);
      SameMembersChains(Insert(first, sorted), [first] + sorted, [first] + rest);
      assert members == [first] + rest;
    }
  }

  lemma NothingIsOrdered<N>()
    ensures Ordered<N>([]) && SameMembers<N>([], [])
  {
  }

  lemma SameFirst<N>(xs: seq<Member<N>>, ys: seq<Member<N>>)
    requires Ordered(xs) && Ordered(ys) && xs != [] && ys != []
    requires SameMembers(xs, ys)
    ensures xs[0] == ys[0]
  {
    hide KeyBefore;
    var i :| 0 <= i < |xs| && xs[i] == ys[0];
    var j :| 0 <= j < |ys| && ys[j] == xs[0];
    assert i > 0 ==> KeyBefore(xs[0].key, xs[i].key);
    assert j > 0 ==> KeyBefore(ys[0].key, ys[j].key);
    KeyOrderIsTotal(xs[0].key, ys[0].key);
  }

  lemma TailIncluded<N>(xs: seq<Member<N>>, ys: seq<Member<N>>)
    requires Included(xs, ys) && xs != [] && ys != [] && xs[0] == ys[0] && xs[0] !in xs[1..]
    ensures Included(xs[1..], ys[1..])
  {
    forall i | 0 <= i < |xs[1..]|
      ensures xs[1..][i] in ys[1..]
    {
      assert xs[i + 1] in ys;
      var j :| 0 <= j < |ys| && ys[j] == xs[i + 1];
      assert xs[1..][i] == xs[i + 1] != xs[0];
      assert ys[1..][j - 1] == ys[j];
    }
  }

  /** Two ordered lists with the same members are the same list. */
  lemma {:induction false} OrderedIsUnique<N>(xs: seq<Member<N>>, ys: seq<Member<N>>)
    requires Ordered(xs) && Ordered(ys)
    requires SameMembers(xs, ys)
    ensures xs == ys
  {
    hide KeyBefore;
    assert xs != [] ==> xs[0] in ys;
    assert ys != [] ==> ys[0] in xs;
    if xs != [] && ys != [] {
      SameFirst(xs, ys);
      NotInTail(xs);
      NotInTail(ys);
      TailIncluded(xs, ys);
      TailIncluded(ys, xs);
      assert xs == [xs[0]] + xs[1..] && ys == [ys[0]] + ys[1..];
      OrderedIsUnique(xs[1..], ys[1..]);
    }
  }

  lemma NotInTail<N>(xs: seq<Member<N>>)
    requires Ordered(xs) && xs != []
    ensures Ordered(xs[1..])
    ensures xs[0] !in xs[1..]
  {
    hide KeyBefore;
    forall i | 0 < i < |xs|
      ensures xs[i] != xs[0]
    {
      KeyOrderIsTotal(xs[0].key, xs[i].key);
    }
  }

  lemma {:induction false} SortOfOrdered<N>(xs: seq<Member<N>>)
    requires Ordered(xs)
    ensures SortByKey(xs) == xs
  {
    if xs != [] {
      NotInTail(xs);
      SortOfOrdered(xs[1..]);
      assert xs == [xs[0]] + xs[1..];
    }
  }

  // ----- canonicalizing succeeds exactly on JSON values

  lemma {:induction false} CanonicalizeSucceeds<N>(v: Value<N>)
    ensures Canonicalize(v).Some? <==> IsJson(v)
    decreases v
  {
    match v
    case List(items) => CanonicalizeItemsSucceeds(items);
    case Object(members) => CanonicalizeMembersSucceeds(members);
    case _ =>
  }

  lemma {:induction false} CanonicalizeItemsSucceeds<N>(items: seq<Value<N>>)
    ensures CanonicalizeItems(items).Some? <==> forall i | 0 <= i < |items| :: IsJson(items[i])
    ensures CanonicalizeItems(items).Some? ==>
      && |CanonicalizeItems(items).value| == |items|
      && forall i | 0 <= i < |items| :: Canonicalize(items[i]) == Some(CanonicalizeItems(items).value[i])
    decreases items
  {
    if items != [] {
      CanonicalizeSucceeds(items[0]);
      CanonicalizeItemsSucceeds(items[1..]);
      assert forall i | 0 < i < |items| :: items[i] == items[1..][i - 1];
      hide IsJson;
    }
  }

  lemma {:induction false} CanonicalizeMembersSucceeds<N>(members: seq<Member<N>>)
    ensures CanonicalizeMembers(members).Some? <==> forall i | 0 <= i < |members| :: IsJson(members[i].value)
    ensures CanonicalizeMembers(members).Some? ==>
      && |CanonicalizeMembers(members).value| == |members|
      && forall i | 0 <= i < |members| ::
           && CanonicalizeMembers(members).value[i].key == members[i].key
           && Canonicalize(members[i].value) == Some(CanonicalizeMembers(members).value[i].value)
    decreases members
  {
    if members != [] {
      CanonicalizeSucceeds(members[0].value);
      CanonicalizeMembersSucceeds(members[1..]);
      assert forall i | 0 < i < |members| :: members[i] == members[1..][i - 1];
      hide IsJson;
    }
  }

  // ----- canonical forms are equal exactly for values that differ in key order only

  /** The members of an object with canonical values, and the same members in key order. */
  lemma CanonicalObject<N>(members: seq<Member<N>>)
    requires IsJson(Object(members)) && HasDistinctKeys(Object(members))
    ensures CanonicalizeMembers(members).Some?
    ensures var plain := CanonicalizeMembers(members).value;
      && Canonicalize(Object(members)) == Some(Object(SortByKey(plain)))
      && |plain| == |members|
      && DistinctKeys(plain)
      && Ordered(SortByKey(plain))
      && |SortByKey(plain)| == |members|
      && SameMembers(SortByKey(plain), plain)
      && forall i | 0 <= i < |members| ::
           plain[i].key == members[i].key && Canonicalize(members[i].value) == Some(plain[i].value)
  {
    CanonicalizeMembersSucceeds(members);
    SortOrders(CanonicalizeMembers(members).value);
  }

  lemma ListsDecide<N>(xs: seq<Value<N>>, ys: seq<Value<N>>)
    requires IsJson(List(xs)) && IsJson(List(ys))
    ensures Canonicalize(List(xs)) == Canonicalize(List(ys))
       <==> |xs| == |ys| && forall i | 0 <= i < |xs| :: Canonicalize(xs[i]) == Canonicalize(ys[i])
  {
    CanonicalizeItemsSucceeds(xs);
    CanonicalizeItemsSucceeds(ys);
    var plainXs, plainYs := CanonicalizeItems(xs).value, CanonicalizeItems(ys).value;
    assert Canonicalize(List(xs)) == Some(List(plainXs)) && Canonicalize(List(ys)) == Some(List(plainYs));
    hide Canonicalize, CanonicalizeItems, IsJson;
    if |xs| == |ys| && forall i | 0 <= i < |xs| :: Canonicalize(xs[i]) == Canonicalize(ys[i]) {
      assert plainXs == plainYs;
    }
  }

  /** The same keys, with values of the same canonical form. */
  ghost predicate Agree<N>(xs: seq<Member<N>>, ys: seq<Member<N>>) {
    && Keys(xs) == Keys(ys)
    && forall i, j | 0 <= i < |xs| && 0 <= j < |ys| && xs[i].key == ys[j].key ::
         Canonicalize(xs[i].value) == Canonicalize(ys[j].value)
  }

  /** Every member of `xs` has, in `ys`, a member of the same key and canonical value. */
  lemma AgreeIncludes<N>(xs: seq<Member<N>>, ys: seq<Member<N>>, plainXs: seq<Member<N>>, plainYs: seq<Member<N>>)
    requires Agree(xs, ys)
    requires |plainXs| == |xs| && forall i | 0 <= i < |xs| ::
      plainXs[i].key == xs[i].key && Canonicalize(xs[i].value) == Some(plainXs[i].value)
    requires |plainYs| == |ys| && forall i | 0 <= i < |ys| ::
      plainYs[i].key == ys[i].key && Canonicalize(ys[i].value) == Some(plainYs[i].value)
    ensures Included(plainXs, plainYs)
  {
    hide Canonicalize;
    forall i | 0 <= i < |plainXs|
      ensures plainXs[i] in plainYs
    {
      assert xs[i].key in Keys(xs);
      var j :| 0 <= j < |ys| && ys[j].key == xs[i].key;
      assert plainXs[i] == plainYs[j];
    }
  }

  lemma EqualObjectsAgree<N>(xs: seq<Member<N>>, ys: seq<Member<N>>, plainXs: seq<Member<N>>, plainYs: seq<Member<N>>)
    requires DistinctKeys(xs) && DistinctKeys(ys)
    requires |plainXs| == |xs| && forall i | 0 <= i < |xs| ::
      plainXs[i].key == xs[i].key && Canonicalize(xs[i].value) == Some(plainXs[i].value)
    requires |plainYs| == |ys| && forall i | 0 <= i < |ys| ::
      plainYs[i].key == ys[i].key && Canonicalize(ys[i].value) == Some(plainYs[i].value)
    requires SameMembers(plainXs, plainYs)
    ensures Agree(xs, ys)
  {
    hide Canonicalize;
    forall i | 0 <= i < |xs|
      ensures xs[i].key in Keys(ys)
    {
      assert plainXs[i] in plainYs;
    }
    forall j | 0 <= j < |ys|
      ensures ys[j].key in Keys(xs)
    {
      assert plainYs[j] in plainXs;
    }
    forall i, j | 0 <= i < |xs| && 0 <= j < |ys| && xs[i].key == ys[j].key
      ensures Canonicalize(xs[i].value) == Canonicalize(ys[j].value)
    {
      assert plainXs[i] in plainYs;
      var k :| 0 <= k < |plainYs| && plainYs[k] == plainXs[i];
      assert k == j;
    }
  }

  lemma ObjectsDecide<N>(xs: seq<Member<N>>, ys: seq<Member<N>>)
    requires IsJson(Object(xs)) && HasDistinctKeys(Object(xs))
    requires IsJson(Object(ys)) && HasDistinctKeys(Object(ys))
    ensures Canonicalize(Object(xs)) == Canonicalize(Object(ys)) <==> Agree(xs, ys)
  {
    CanonicalObject(xs);
    CanonicalObject(ys);
    assert DistinctKeys(xs) && DistinctKeys(ys);
    hide Canonicalize, IsJson, HasDistinctKeys, Agree, SortByKey, Ordered, CanonicalizeMembers, DistinctKeys;
    var plainXs, plainYs := CanonicalizeMembers(xs).value, CanonicalizeMembers(ys).value;
    if Agree(xs, ys) {
      AgreeIncludes(xs, ys, plainXs, plainYs);
      AgreeIsSymmetric(xs, ys);
      AgreeIncludes(ys, xs, plainYs, plainXs);
      SameMembersChains(SortByKey(plainXs), plainXs, plainYs);
      SameMembersChains(SortByKey(plainXs), plainYs, SortByKey(plainYs));
      OrderedIsUnique(SortByKey(plainXs), SortByKey(plainYs));
    }
    if Canonicalize(Object(xs)) == Canonicalize(Object(ys)) {
      SameMembersChains(plainXs, SortByKey(plainXs), plainYs);
      EqualObjectsAgree(xs, ys, plainXs, plainYs);
    }
  }

  lemma AgreeIsSymmetric<N>(xs: seq<Member<N>>, ys: seq<Member<N>>)
    requires Agree(xs, ys)
    ensures Agree(ys, xs)
  {
    hide Canonicalize;
  }

  lemma {:induction false} CanonicalFormsDecide<N>(a: Value<N>, b: Value<N>)
    requires IsJson(a) && HasDistinctKeys(a) && IsJson(b) && HasDistinctKeys(b)
    ensures Canonicalize(a) == Canonicalize(b) <==> SameValue(a, b)
    decreases a
  {
    CanonicalizeSucceeds(a);
    CanonicalizeSucceeds(b);
    if a.List? && b.List? {
      if |a.items| == |b.items| {
        forall i | 0 <= i < |a.items|
          ensures Canonicalize(a.items[i]) == Canonicalize(b.items[i]) <==> SameValue(a.items[i], b.items[i])
        {
          CanonicalFormsDecide(a.items[i], b.items[i]);
        }
      }
      ListsDecide(a.items, b.items);
    } else if a.Object? && b.Object? {
      forall i, j | 0 <= i < |a.members| && 0 <= j < |b.members|
        ensures Canonicalize(a.members[i].value) == Canonicalize(b.members[j].value)
           <==> SameValue(a.members[i].value, b.members[j].value)
      {
        CanonicalFormsDecide(a.members[i].value, b.members[j].value);
      }
      ObjectsDecide(a.members, b.members);
    }
  }

  // ----- canonical values

  lemma OrderedIsDistinct<N>(members: seq<Member<N>>)
    requires Ordered(members)
    ensures DistinctKeys(members)
  {
    hide KeyBefore;
    forall i, j | 0 <= i < j < |members| ensures members[i].key != members[j].key {
      KeyOrderIsTotal(members[i].key, members[j].key);
    }
  }

  lemma {:induction false} CanonicalIsJson<N>(v: Value<N>)
    requires IsJson(v) && HasDistinctKeys(v)
    ensures Canonicalize(v).Some? && IsJson(Canonicalize(v).value) && HasDistinctKeys(Canonicalize(v).value)
    decreases v
  {
    hide Ordered, SortByKey;
    CanonicalizeSucceeds(v);
    match v
    case List(items) =>
      CanonicalizeItemsSucceeds(items);
      forall i | 0 <= i < |items|
        ensures IsJson(CanonicalizeItems(items).value[i]) && HasDistinctKeys(CanonicalizeItems(items).value[i])
      {
        CanonicalIsJson(items[i]);
      }
    case Object(members) =>
      CanonicalObject(members);
      var plain := CanonicalizeMembers(members).value;
      OrderedIsDistinct(SortByKey(plain));
      forall i | 0 <= i < |members|
        ensures IsJson(SortByKey(plain)[i].value) && HasDistinctKeys(SortByKey(plain)[i].value)
      {
        var j :| 0 <= j < |plain| && plain[j] == SortByKey(plain)[i];
        CanonicalIsJson(members[j].value);
      }
    case _ =>
  }

  /** A canonical form is the value it was made of, up to the order of keys. */
  lemma CanonicalIsSame<N>(v: Value<N>)
    requires IsJson(v) && HasDistinctKeys(v)
    ensures Canonicalize(v).Some? && SameValue(v, Canonicalize(v).value)
  {
    CanonicalIsJson(v);
    CanonicalIsFixed(v);
    CanonicalFormsDecide(v, Canonicalize(v).value);
    hide Canonicalize, IsJson, HasDistinctKeys, SameValue;
  }

  lemma ItemsAreFixed<N>(items: seq<Value<N>>)
    requires forall i | 0 <= i < |items| :: Canonicalize(items[i]) == Some(items[i])
    ensures CanonicalizeItems(items) == Some(items)
  {
    hide Canonicalize;
    if items != [] {
      ItemsAreFixed(items[1..]);
      assert items == [items[0]] + items[1..];
    }
  }

  lemma MembersAreFixed<N>(members: seq<Member<N>>)
    requires forall i | 0 <= i < |members| :: Canonicalize(members[i].value) == Some(members[i].value)
    ensures CanonicalizeMembers(members) == Some(members)
  {
    hide Canonicalize;
    if members != [] {
      MembersAreFixed(members[1..]);
      assert members == [members[0]] + members[1..];
    }
  }

  lemma {:induction false} CanonicalIsFixed<N>(v: Value<N>)
    requires IsJson(v) && HasDistinctKeys(v)
    ensures Canonicalize(v).Some? && Canonicalize(Canonicalize(v).value) == Canonicalize(v)
    decreases v
  {
    CanonicalizeSucceeds(v);
    match v
    case List(items) =>
      CanonicalizeItemsSucceeds(items);
      var plain := CanonicalizeItems(items).value;
      forall i | 0 <= i < |items|
        ensures Canonicalize(plain[i]) == Some(plain[i])
      {
        CanonicalIsFixed(items[i]);
      }
      ItemsAreFixed(plain);
    case Object(members) =>
      CanonicalObject(members);
      var plain := CanonicalizeMembers(members).value;
      var sorted := SortByKey(plain);
      forall i | 0 <= i < |sorted|
        ensures Canonicalize(sorted[i].value) == Some(sorted[i].value)
      {
        var j :| 0 <= j < |plain| && plain[j] == sorted[i];
        CanonicalIsFixed(members[j].value);
      }
      MembersAreFixed(sorted);
      SortOfOrdered(sorted);
    case _ =>
  }
}
