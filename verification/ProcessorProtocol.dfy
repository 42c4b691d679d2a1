/** The requests of the attachment processor: printing them, and exactly which parsed values are accepted. */
module ProcessorProtocol {
  import opened CanonicalJson
  import opened JsNumbers
  import KeyedLists
  import opened Uuids
  import opened Wrappers

  /** A finite number: an integer, or one of the others, which the protocol only has to tell apart. */
  datatype JsNumber = Whole(n: int) | Fraction(index: nat)

  type Json = Value<JsNumber>

  datatype Processor = TextProcessor | ZipProcessor

  /** The quotas in the order of their names. */
  type Quotas = q: seq<int> | |q| == 9 witness [1, 1, 1, 1, 1, 1, 1, 0, 1]

  const QUOTA_KEYS := [
    "timeoutMs", "maximumMemoryBytes", "maximumInputBytes", "maximumOutputBytes", "maximumFiles",
    "maximumExpandedBytes", "maximumExtractedFileBytes", "maximumArchiveDepth", "maximumCompressionRatio"
  ]

  const ARCHIVE_DEPTH := 7

  datatype Request = Execute(jobId: string, processor: Processor, quotas: Quotas) | Cancel(jobId: string)

  /** Safe integers above zero; the archive depth may be zero. */
  predicate ValidQuota(i: nat, n: int) {
    n <= MAXIMUM_SAFE_INTEGER && (if i == ARCHIVE_DEPTH then n >= 0 else n > 0)
  }

  predicate Valid(r: Request) {
    IsUuid(r.jobId) && (r.Execute? ==> forall i | 0 <= i < 9 :: ValidQuota(i, r.quotas[i]))
  }

  // ----- the value that is printed

  function ProcessorName(p: Processor): string {
    if p.TextProcessor? then "text" else "zip"
  }

  function QuotaMembers(q: Quotas): seq<Member<JsNumber>> {
    seq(9, i requires 0 <= i < 9 => Member(QUOTA_KEYS[i], Number(Whole(q[i]))))
  }

  function RequestMembers(r: Request): seq<Member<JsNumber>> {
    match r
    case Cancel(jobId) => [Member("kind", Text("cancel")), Member("jobId", Text(jobId))]
    case Execute(jobId, processor, quotas) =>
      [Member("kind", Text("execute")), Member("jobId", Text(jobId)),
       Member("processor", Text(ProcessorName(processor))), Member("quotas", Object(QuotaMembers(quotas)))]
  }

  function ToJson(r: Request): Json {
    Object(RequestMembers(r))
  }

  // ----- the parser

  function Lookup(members: seq<Member<JsNumber>>, key: string): Option<Json> {
    if members == [] then None
    else if members[0].key == key then Some(members[0].value)
    else Lookup(members[1..], key)
  }

  predicate HasExactKeys(members: seq<Member<JsNumber>>, expected: seq<string>) {
    |members| == |expected| && forall i | 0 <= i < |members| :: members[i].key in expected
  }

  /** The quota of this name is a number that passes. */
  predicate HasQuota(members: seq<Member<JsNumber>>, i: nat)
    requires i < 9
  {
    var v := Lookup(members, QUOTA_KEYS[i]);
    v.Some? && v.value.Number? && v.value.n.Whole? && ValidQuota(i, v.value.n.n)
  }

  function ReadQuotas(v: Json): Option<Quotas> {
    if !v.Object? || !HasExactKeys(v.members, QUOTA_KEYS) then None
    else if !(forall i | 0 <= i < 9 :: HasQuota(v.members, i)) then None
    else
      var members := v.members;
      Some(seq(9, i requires 0 <= i < 9 && HasQuota(members, i) => Lookup(members, QUOTA_KEYS[i]).value.n.n))
  }

  function TextAt(members: seq<Member<JsNumber>>, key: string): Option<string> {
    var v := Lookup(members, key);
    if v.Some? && v.value.Text? then Some(v.value.s) else None
  }

  /** `parseAttachmentProcessorRequest`, from the value that `JSON.parse` returns. */
  function ParseRequest(v: Json): Option<Request> {
    if !v.Object? then None
    else
      var kind :- TextAt(v.members, "kind");
      var jobId :- TextAt(v.members, "jobId");
      if !IsUuid(jobId) then None
      else if kind == "cancel" then
        if HasExactKeys(v.members, ["kind", "jobId"]) then Some(Cancel(jobId)) else None
      else
        var processor := TextAt(v.members, "processor");
        if kind != "execute" || processor !in {Some("text"), Some("zip")} then None
        else if !HasExactKeys(v.members, ["kind", "jobId", "processor", "quotas"]) then None
        else
          var given :- Lookup(v.members, "quotas");
          var quotas :- ReadQuotas(given);
          Some(Execute(jobId, if processor == Some("text") then TextProcessor else ZipProcessor, quotas))
  }

  // ----- objects with exact keys

  function KeyOf(m: Member<JsNumber>): string {
    m.key
  }

  function Names(members: seq<Member<JsNumber>>): seq<string> {
    seq(|members|, i requires 0 <= i < |members| => members[i].key)
  }

  lemma {:induction false} LookupMeaning(members: seq<Member<JsNumber>>, key: string)
    requires DistinctKeys(members)
    ensures Lookup(members, key).Some? <==> key in Keys(members)
    ensures forall i | 0 <= i < |members| && members[i].key == key :: Lookup(members, key) == Some(members[i].value)
  {
    if members != [] {
      LookupMeaning(members[1..], key);
      assert forall i | 0 < i < |members| :: members[i] == members[1..][i - 1];
      if key in Keys(members) {
        var i :| 0 <= i < |members| && members[i].key == key;
        assert i > 0 ==> members[1..][i - 1].key == key;
      }
      if key in Keys(members[1..]) {
        var i :| 0 <= i < |members| - 1 && members[1..][i].key == key;
        assert members[i + 1].key == key;
      }
    }
  }

  lemma KeyCount(members: seq<Member<JsNumber>>)
    requires DistinctKeys(members)
    ensures |Keys(members)| == |members|
  {
    KeyedLists.DistinctCount(KeyOf, members);
    assert KeyedLists.Keys(KeyOf, members) == Keys(members) by {
      assert forall i | 0 <= i < |members| :: KeyOf(members[i]) == members[i].key;
    }
  }

  lemma ExactKeysMeaning(members: seq<Member<JsNumber>>, expected: seq<Member<JsNumber>>)
    requires DistinctKeys(members) && DistinctKeys(expected)
    ensures HasExactKeys(members, Names(expected)) <==> Keys(members) == Keys(expected)
  {
    KeyCount(members);
    KeyCount(expected);
    forall key ensures key in Names(expected) <==> key in Keys(expected) {
      if key in Keys(expected) {
        var i :| 0 <= i < |expected| && expected[i].key == key;
        assert Names(expected)[i] == key;
      }
    }
    if HasExactKeys(members, Names(expected)) {
      assert Keys(members) <= Keys(expected);
      EqualBySize(Keys(members), Keys(expected));
    }
    if Keys(members) == Keys(expected) {
      assert forall i | 0 <= i < |members| :: members[i].key in Keys(members);
    }
  }

  lemma EqualBySize(a: set<string>, b: set<string>)
    requires a <= b && |a| == |b|
    ensures a == b
  {
    assert b == a + (b - a);
    assert |b| == |a| + |b - a|;
  }

  /** Being an object, up to key order, is having exactly its keys and under each of them its value. */
  lemma ExactObject(members: seq<Member<JsNumber>>, expected: seq<Member<JsNumber>>)
    requires DistinctKeys(members) && DistinctKeys(expected)
    ensures SameValue(Object(members), Object(expected))
      <==> && HasExactKeys(members, Names(expected))
           && forall j | 0 <= j < |expected| :: HasMember(members, expected[j])
  {
    ExactKeysMeaning(members, expected);
    if Keys(members) == Keys(expected) {
      forall j | 0 <= j < |expected|
        ensures HasMember(members, expected[j])
          <==> forall i | 0 <= i < |members| && members[i].key == expected[j].key ::
                 SameValue(members[i].value, expected[j].value)
      {
        var key := expected[j].key;
        LookupMeaning(members, key);
        assert key in Keys(expected);
        var k :| 0 <= k < |members| && members[k].key == key;
      }
    }
    hide SameValue, Lookup, HasExactKeys;
    assert SameValue(Object(members), Object(expected))
      <==> && Keys(members) == Keys(expected)
           && forall i, j | 0 <= i < |members| && 0 <= j < |expected| && members[i].key == expected[j].key ::
                SameValue(members[i].value, expected[j].value) by {
      SameObjects(members, expected);
    }
  }

  lemma SameObjects(members: seq<Member<JsNumber>>, expected: seq<Member<JsNumber>>)
    ensures SameValue(Object(members), Object(expected))
      <==> && Keys(members) == Keys(expected)
           && forall i, j | 0 <= i < |members| && 0 <= j < |expected| && members[i].key == expected[j].key ::
                SameValue(members[i].value, expected[j].value)
  {
  }

  ghost predicate HasMember(members: seq<Member<JsNumber>>, m: Member<JsNumber>) {
    Lookup(members, m.key).Some? && SameValue(Lookup(members, m.key).value, m.value)
  }

  // ----- exactly the printed requests are accepted

  lemma QuotaKeysDiffer(i: nat, j: nat)
    requires i < j < 9
    ensures QUOTA_KEYS[i] != QUOTA_KEYS[j]
  {
    assert QUOTA_KEYS[1][7] == 'M' && QUOTA_KEYS[3][7] == 'O';
    assert |QUOTA_KEYS[i]| == |QUOTA_KEYS[j]| ==> i == 1 && j == 3;
  }

  lemma QuotaMembersMeaning(q: Quotas)
    ensures DistinctKeys(QuotaMembers(q)) && Names(QuotaMembers(q)) == QUOTA_KEYS
  {
    forall i, j | 0 <= i < j < 9 ensures QuotaMembers(q)[i].key != QuotaMembers(q)[j].key {
      QuotaKeysDiffer(i, j);
    }
    assert forall i | 0 <= i < 9 :: Names(QuotaMembers(q))[i] == QUOTA_KEYS[i];
  }

  lemma QuotasExactly(members: seq<Member<JsNumber>>, q: Quotas)
    requires DistinctKeys(members)
    ensures ReadQuotas(Object(members)) == Some(q)
      <==> (forall i | 0 <= i < 9 :: ValidQuota(i, q[i])) && SameValue(Object(members), Object(QuotaMembers(q)))
  {
    QuotaMembersMeaning(q);
    ExactObject(members, QuotaMembers(q));
    forall i | 0 <= i < 9
      ensures HasMember(members, QuotaMembers(q)[i]) <==> Lookup(members, QUOTA_KEYS[i]) == Some(Number(Whole(q[i])))
    {
      assert QuotaMembers(q)[i] == Member(QUOTA_KEYS[i], Number(Whole(q[i])));
    }
    hide SameValue, Lookup, HasExactKeys, HasMember, ValidQuota, QuotaMembers;
    if ReadQuotas(Object(members)) == Some(q) {
      forall i | 0 <= i < 9 ensures Lookup(members, QUOTA_KEYS[i]) == Some(Number(Whole(q[i]))) && ValidQuota(i, q[i]) {
        assert HasQuota(members, i);
        assert ReadQuotas(Object(members)).value[i] == Lookup(members, QUOTA_KEYS[i]).value.n.n;
      }
    }
    if (forall i | 0 <= i < 9 :: ValidQuota(i, q[i])) && SameValue(Object(members), Object(QuotaMembers(q))) {
      forall i | 0 <= i < 9 ensures HasQuota(members, i) && Lookup(members, QUOTA_KEYS[i]).value.n.n == q[i] {
        assert HasMember(members, QuotaMembers(q)[i]);
        assert ValidQuota(i, q[i]);
      }
      assert ReadQuotas(Object(members)).value == q;
    }
  }

  lemma RequestMembersMeaning(r: Request)
    ensures DistinctKeys(RequestMembers(r))
    ensures Names(RequestMembers(r))
      == if r.Cancel? then ["kind", "jobId"] else ["kind", "jobId", "processor", "quotas"]
  {
    assert |"kind"| == 4 && |"jobId"| == 5 && |"processor"| == 9 && |"quotas"| == 6;
  }

  /** The members of a request, spelled out. */
  lemma ExactRequest(members: seq<Member<JsNumber>>, r: Request)
    requires DistinctKeys(members)
    ensures SameValue(Object(members), ToJson(r))
      <==> && HasExactKeys(members, Names(RequestMembers(r)))
           && Lookup(members, "kind") == Some(Text(if r.Cancel? then "cancel" else "execute"))
           && Lookup(members, "jobId") == Some(Text(r.jobId))
           && (r.Execute? ==>
                 && Lookup(members, "processor") == Some(Text(ProcessorName(r.processor)))
                 && HasMember(members, Member("quotas", Object(QuotaMembers(r.quotas)))))
  {
    hide SameValue, Lookup, HasExactKeys, HasMember, QuotaMembers, DistinctKeys, Names;
    RequestMembersMeaning(r);
    var expected := RequestMembers(r);
    ExactObject(members, expected);
    TextMember(members, "kind", if r.Cancel? then "cancel" else "execute");
    TextMember(members, "jobId", r.jobId);
    if r.Execute? {
      TextMember(members, "processor", ProcessorName(r.processor));
      assert (forall j | 0 <= j < |expected| :: HasMember(members, expected[j]))
        <==> HasMember(members, expected[0]) && HasMember(members, expected[1])
             && HasMember(members, expected[2]) && HasMember(members, expected[3]);
    } else {
      assert (forall j | 0 <= j < |expected| :: HasMember(members, expected[j]))
        <==> HasMember(members, expected[0]) && HasMember(members, expected[1]);
    }
  }

  lemma TextMember(members: seq<Member<JsNumber>>, key: string, s: string)
    ensures HasMember(members, Member(key, Text(s))) <==> Lookup(members, key) == Some(Text(s))
  {
    hide Lookup;
  }

  /** When the parser returns this request. */
  lemma ParsedRequest(members: seq<Member<JsNumber>>, r: Request)
    ensures ParseRequest(Object(members)) == Some(r)
      <==> && IsUuid(r.jobId)
           && TextAt(members, "kind") == Some(if r.Cancel? then "cancel" else "execute")
           && TextAt(members, "jobId") == Some(r.jobId)
           && HasExactKeys(members, if r.Cancel? then ["kind", "jobId"] else ["kind", "jobId", "processor", "quotas"])
           && (r.Execute? ==>
                 && TextAt(members, "processor") == Some(ProcessorName(r.processor))
                 && Lookup(members, "quotas").Some?
                 && ReadQuotas(Lookup(members, "quotas").value) == Some(r.quotas))
  {
    hide Lookup, HasExactKeys, ReadQuotas, TextAt, IsUuid;
    assert |"cancel"| == 6 && |"execute"| == 7 && |"text"| == 4 && |"zip"| == 3;
  }

  lemma ValidReadQuotas(v: Json, q: Quotas)
    requires HasDistinctKeys(v)
    ensures ReadQuotas(v) == Some(q)
      <==> (forall i | 0 <= i < 9 :: ValidQuota(i, q[i])) && SameValue(v, Object(QuotaMembers(q)))
  {
    if v.Object? {
      QuotasExactly(v.members, q);
    }
    hide ReadQuotas, QuotaMembers, ValidQuota;
  }

  /** A parsed value is accepted as a request exactly when it is that request's value, up to key order. */
  lemma RequestsExactly(v: Json, r: Request)
    requires HasDistinctKeys(v)
    ensures ParseRequest(v) == Some(r) <==> Valid(r) && SameValue(v, ToJson(r))
  {
    if v.Object? {
      var members := v.members;
      ExactRequest(members, r);
      ParsedRequest(members, r);
      RequestMembersMeaning(r);
      var quotas := Lookup(members, "quotas");
      if r.Execute? && quotas.Some? {
        LookupIsMember(members, "quotas");
        ValidReadQuotas(quotas.value, r.quotas);
      }
      hide SameValue, Lookup, HasExactKeys, ReadQuotas, QuotaMembers, IsUuid, DistinctKeys, RequestMembers, Names,
        ParseRequest, ToJson, ValidQuota;
    }
  }

  lemma {:induction false} LookupIsMember(members: seq<Member<JsNumber>>, key: string)
    requires Lookup(members, key).Some?
    requires forall i | 0 <= i < |members| :: HasDistinctKeys(members[i].value)
    ensures HasDistinctKeys(Lookup(members, key).value)
  {
    if members[0].key != key {
      LookupIsMember(members[1..], key);
    }
  }
}
