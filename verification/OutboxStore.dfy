/** The transactional outbox table and the durable queue: what each statement does to its rows. */
module OutboxStore {
  import opened KeyOrder
  import opened Uuids
  import opened Wrappers

  /** `body` stands for the fields that the outbox only carries along. Instants are milliseconds. */
  datatype Envelope = Envelope(id: string, workspaceId: string, occurredAt: int, body: string)

  datatype Row = Row(
    envelope: Envelope,
    availableAt: int,
    claimToken: Option<nat>,
    claimedUntil: Option<int>,
    claimAttempts: nat,
    deliveredAt: Option<int>
  )

  type Rows = map<string, Row>

  /** `until` is the end of the lease that the claim took; a relay never looks at it. */
  datatype Claim = Claim(token: nat, envelope: Envelope, until: int)

  // ----- the statements

  /** `None` when the primary key is taken. */
  function AppendRow(rows: Rows, e: Envelope): Option<Rows> {
    if e.id in rows then None else Some(rows[e.id := Row(e, e.occurredAt, None, None, 0, None)])
  }

  predicate Eligible(row: Row, now: int) {
    && row.deliveredAt.None?
    && row.availableAt <= now
    && (row.claimedUntil.None? || row.claimedUntil.value <= now)
  }

  /** Eligible rows that no other transaction has locked. */
  function Candidates(rows: Rows, now: int, locked: set<string>): set<string> {
    set id | id in rows && id !in locked && Eligible(rows[id], now)
  }

  /** `ORDER BY occurred_at, id` */
  predicate Earlier(rows: Rows, a: string, b: string)
    requires a in rows && b in rows
  {
    var s, t := rows[a].envelope.occurredAt, rows[b].envelope.occurredAt;
    s < t || (s == t && LexBefore(a, b))
  }

  predicate IsEarliest(rows: Rows, ids: set<string>, id: string)
    requires ids <= rows.Keys
  {
    id in ids && forall other | other in ids :: other == id || Earlier(rows, id, other)
  }

  /** The first `limit` of these rows. */
  ghost function Selection(rows: Rows, ids: set<string>, limit: nat): seq<string>
    requires ids <= rows.Keys
    decreases limit
  {
    if limit == 0 || ids == {} then []
    else
      EarliestExists(rows, ids);
      var first :| IsEarliest(rows, ids, first);
      [first] + Selection(rows, ids - {first}, limit - 1)
  }

  lemma EarlierIsTotal(rows: Rows, a: string, b: string)
    requires a in rows && b in rows
    ensures Earlier(rows, a, b) || a == b || Earlier(rows, b, a)
    ensures Earlier(rows, a, b) ==> !Earlier(rows, b, a) && a != b
  {
    LexIsTotal(a, b);
  }

  lemma EarlierIsTransitive(rows: Rows, a: string, b: string, c: string)
    requires a in rows && b in rows && c in rows && Earlier(rows, a, b) && Earlier(rows, b, c)
    ensures Earlier(rows, a, c)
  {
    if LexBefore(a, b) && LexBefore(b, c) {
      LexIsTransitive(a, b, c);
    }
  }

  lemma {:induction false} EarliestExists(rows: Rows, ids: set<string>)
    requires ids <= rows.Keys && ids != {}
    ensures exists id :: IsEarliest(rows, ids, id)
    decreases |ids|
  {
    var x :| x in ids;
    if ids == {x} {
      assert IsEarliest(rows, ids, x);
    } else {
      EarliestExists(rows, ids - {x});
      var first :| IsEarliest(rows, ids - {x}, first);
      var winner := if Earlier(rows, x, first) then x else first;
      forall other | other in ids ensures other == winner || Earlier(rows, winner, other) {
        EarlierIsTotal(rows, x, first);
        if other != first && other != x && winner == x {
          EarlierIsTransitive(rows, x, first, other);
        }
      }
      assert IsEarliest(rows, ids, winner);
    }
  }

  lemma EarliestIsUnique(rows: Rows, ids: set<string>, a: string, b: string)
    requires ids <= rows.Keys && IsEarliest(rows, ids, a) && IsEarliest(rows, ids, b)
    ensures a == b
  {
    EarlierIsTotal(rows, a, b);
  }

  lemma NothingSelected(rows: Rows, ids: set<string>, limit: nat)
    requires ids <= rows.Keys && (limit == 0 || ids == {})
    ensures Selection(rows, ids, limit) == []
  {
  }

  lemma EarliestIsMember(rows: Rows, ids: set<string>, first: string)
    requires ids <= rows.Keys && IsEarliest(rows, ids, first)
    ensures first in ids
  {
  }

  lemma CandidatesAreRows(rows: Rows, now: int, locked: set<string>)
    ensures Candidates(rows, now, locked) <= rows.Keys
  {
  }

  lemma SelectionStep(rows: Rows, ids: set<string>, limit: nat, first: string)
    requires ids <= rows.Keys && limit > 0 && IsEarliest(rows, ids, first)
    ensures Selection(rows, ids, limit) == [first] + Selection(rows, ids - {first}, limit - 1)
  {
    EarliestIsUnique(rows, ids, first, Selection(rows, ids, limit)[0]);
  }

  /** As many rows as fit, no row twice, in order, and no row passed over for a later one. */
  lemma {:induction false} SelectionMeaning(rows: Rows, ids: set<string>, limit: nat)
    requires ids <= rows.Keys
    ensures var selected := Selection(rows, ids, limit);
      && |selected| == (if |ids| < limit then |ids| else limit)
      && (forall i | 0 <= i < |selected| :: selected[i] in ids)
      && (forall i, j | 0 <= i < j < |selected| :: Earlier(rows, selected[i], selected[j]))
      && (forall i, id | 0 <= i < |selected| && id in ids && id !in selected :: Earlier(rows, selected[i], id))
    decreases limit
  {
    if limit > 0 && ids != {} {
      var selected := Selection(rows, ids, limit);
      var first := selected[0];
      assert IsEarliest(rows, ids, first);
      var rest := Selection(rows, ids - {first}, limit - 1);
      SelectionMeaning(rows, ids - {first}, limit - 1);
      assert selected == [first] + rest;
      assert |ids - {first}| == |ids| - 1;
    }
  }

  /** The `UPDATE` of `claim`. */
  function ClaimRow(row: Row, token: nat, until: int): Row {
    row.(claimToken := Some(token), claimedUntil := Some(until), claimAttempts := row.claimAttempts + 1)
  }

  function ClaimRows(rows: Rows, ids: set<string>, token: nat, until: int): Rows {
    map id | id in rows :: if id in ids then ClaimRow(rows[id], token, until) else rows[id]
  }

  function Members(ids: seq<string>): set<string> {
    set id | id in ids
  }

  predicate AllReadable(rows: Rows, ids: seq<string>, readable: Envelope -> bool) {
    forall i | 0 <= i < |ids| && ids[i] in rows :: readable(rows[ids[i]].envelope)
  }

  /** The returned rows, in whatever order the database returns them. */
  function Claimed(rows: Rows, order: seq<string>, token: nat, until: int): (r: seq<Claim>)
    requires forall i | 0 <= i < |order| :: order[i] in rows
  {
    seq(|order|, i requires 0 <= i < |order| => Claim(token, rows[order[i]].envelope, until))
  }

  lemma NothingClaimed(rows: Rows, token: nat, until: int)
    ensures Claimed(rows, [], token, until) == [] && ClaimRows(rows, Members([]), token, until) == rows
  {
  }

  /** A batch grows by one row. */
  lemma ClaimedOneMore(rows: Rows, ids: seq<string>, id: string, token: nat, until: int)
    requires id in rows && forall i | 0 <= i < |ids| :: ids[i] in rows
    ensures Claimed(rows, ids + [id], token, until)
         == Claimed(rows, ids, token, until) + [Claim(token, rows[id].envelope, until)]
    ensures ClaimRows(rows, Members(ids + [id]), token, until)
         == ClaimRows(rows, Members(ids), token, until)[id := ClaimRow(rows[id], token, until)]
  {
  }

  /** `None` when no row carries this claim any more. */
  function AcknowledgeRow(rows: Rows, claim: Claim, deliveredAt: int): Option<Rows> {
    var id := claim.envelope.id;
    if id in rows
       && rows[id].envelope.workspaceId == claim.envelope.workspaceId
       && rows[id].claimToken == Some(claim.token)
       && rows[id].deliveredAt.None?
    then
      Some(rows[id := rows[id].(deliveredAt := Some(deliveredAt), claimToken := None, claimedUntil := None)])
    else None
  }

  // ----- the queue

  predicate HasJob(jobs: seq<Envelope>, id: string) {
    exists i | 0 <= i < |jobs| :: jobs[i].id == id
  }

  /** `send` with a fixed id inserts nothing when the id is there already; `None` is the refusal of other ids. */
  function PublishJob(jobs: seq<Envelope>, e: Envelope): Option<seq<Envelope>> {
    if !IsUuid(e.id) then None
    else if HasJob(jobs, e.id) then Some(jobs)
    else Some(jobs + [e])
  }

  // ----- the store

  class PostgresOutboxStore {
    var rows: Rows
    var serial: nat

    constructor ()
      ensures rows == map[] && serial == 0
    {
      rows, serial := map[], 0;
    }

    method Append(e: Envelope) returns (ok: bool)
      modifies this
      ensures ok <==> AppendRow(old(rows), e).Some?
      ensures rows == if ok then AppendRow(old(rows), e).value else old(rows)
      ensures serial == old(serial)
    {
      if e.id in rows {
        return false;
      }
      rows := rows[e.id := Row(e, e.occurredAt, None, None, 0, None)];
      return true;
    }

    /**
     * The serial number stands for the random claim token. A returned row that cannot be deserialized throws, which
     * rolls the transaction back.
     */
    method ClaimBatch(now: int, limit: int, leaseMs: int, locked: set<string>, readable: Envelope -> bool)
        returns (claims: Option<seq<Claim>>)
      modifies this
      ensures claims.Some?
        <==> && 1 <= limit <= 100 && 1 <= leaseMs
             && AllReadable(old(rows), Selection(old(rows), Candidates(old(rows), now, locked), limit), readable)
      ensures claims.None? ==> rows == old(rows) && serial == old(serial)
      ensures claims.Some? ==>
        var selected := Selection(old(rows), Candidates(old(rows), now, locked), limit);
        && (forall i | 0 <= i < |selected| :: selected[i] in old(rows))
        && claims.value == Claimed(old(rows), selected, old(serial), now + leaseMs)
        && rows == ClaimRows(old(rows), Members(selected), old(serial), now + leaseMs)
        && serial == old(serial) + 1
    {
      if !(1 <= limit <= 100) || leaseMs < 1 {
        return None;
      }
      var selected := SelectRows(now, limit, locked);
      var returned := ReturnRows(selected, now + leaseMs, readable);
      if returned.None? {
        return None;
      }
      rows, serial := returned.value.1, serial + 1;
      return Some(returned.value.0);
    }

    /** The updated table and its deserialized rows. */
    method ReturnRows(selected: seq<string>, until: int, readable: Envelope -> bool)
        returns (returned: Option<(seq<Claim>, Rows)>)
      requires forall i | 0 <= i < |selected| :: selected[i] in rows
      ensures returned.Some? <==> AllReadable(rows, selected, readable)
      ensures returned.Some? ==>
        && returned.value.0 == Claimed(rows, selected, serial, until)
        && returned.value.1 == ClaimRows(rows, Members(selected), serial, until)
    {
      hide ClaimRow, ClaimRows, Claimed, Members;
      var batch: seq<Claim> := [];
      var updated := rows;
      NothingClaimed(rows, serial, until);
      for i := 0 to |selected|
        invariant forall k | 0 <= k < i :: readable(rows[selected[k]].envelope)
        invariant batch == Claimed(rows, selected[..i], serial, until)
        invariant updated == ClaimRows(rows, Members(selected[..i]), serial, until)
      {
        var row := rows[selected[i]];
        if !readable(row.envelope) {
          return None;
        }
        assert selected[..i + 1] == selected[..i] + [selected[i]];
        ClaimedOneMore(rows, selected[..i], selected[i], serial, until);
        updated := updated[selected[i] := ClaimRow(row, serial, until)];
        batch := batch + [Claim(serial, row.envelope, until)];
      }
      assert selected[..|selected|] == selected;
      return Some((batch, updated));
    }

    /** The subquery: the earliest candidate, `limit` times. */
    method SelectRows(now: int, limit: nat, locked: set<string>) returns (selected: seq<string>)
      ensures selected == Selection(rows, Candidates(rows, now, locked), limit)
      ensures forall i | 0 <= i < |selected| :: selected[i] in rows
    {
      hide Selection, IsEarliest, Candidates;
      var left := Candidates(rows, now, locked);
      assert left <= rows.Keys by { CandidatesAreRows(rows, now, locked); }
      ghost var all := Selection(rows, left, limit);
      ghost var rest := all;
      selected := [];
      assert selected + rest == all;
      while |selected| < limit && left != {}
        invariant |selected| <= limit && left <= rows.Keys
        invariant forall i | 0 <= i < |selected| :: selected[i] in rows
        invariant rest == Selection(rows, left, limit - |selected|) && selected + rest == all
        decreases |left|
      {
        var first := FindEarliest(left);
        assert first in left by { EarliestIsMember(rows, left, first); }
        SelectionStep(rows, left, limit - |selected|, first);
        assert rest == [first] + rest[1..] && selected + rest == selected + [first] + rest[1..];
        rest := rest[1..];
        selected := selected + [first];
        left := left - {first};
      }
      NothingSelected(rows, left, limit - |selected|);
      assert selected + [] == selected;
    }

    method FindEarliest(ids: set<string>) returns (first: string)
      requires ids <= rows.Keys && ids != {}
      ensures IsEarliest(rows, ids, first)
    {
      first :| first in ids;
      var seen, left := {first}, ids - {first};
      while left != {}
        invariant seen + left == ids && seen !! left
        invariant IsEarliest(rows, seen, first)
        decreases |left|
      {
        var next :| next in left;
        EarlierIsTotal(rows, next, first);
        if Earlier(rows, next, first) {
          forall other | other in seen && other != first ensures Earlier(rows, next, other) {
            EarlierIsTransitive(rows, next, first, other);
          }
          first := next;
        }
        seen, left := seen + {next}, left - {next};
      }
    }

    method Acknowledge(claim: Claim, deliveredAt: int) returns (ok: bool)
      modifies this
      ensures ok <==> AcknowledgeRow(old(rows), claim, deliveredAt).Some?
      ensures rows == if ok then AcknowledgeRow(old(rows), claim, deliveredAt).value else old(rows)
      ensures serial == old(serial)
    {
      var id := claim.envelope.id;
      if id !in rows {
        return false;
      }
      var row := rows[id];
      if row.envelope.workspaceId != claim.envelope.workspaceId || row.claimToken != Some(claim.token)
         || row.deliveredAt.Some? {
        return false;
      }
      rows := rows[id := row.(deliveredAt := Some(deliveredAt), claimToken := None, claimedUntil := None)];
      return true;
    }
  }

  class PgBossDurableMessageQueue {
    var jobs: seq<Envelope>

    constructor ()
      ensures jobs == []
    {
      jobs := [];
    }

    method Publish(e: Envelope) returns (ok: bool)
      modifies this
      ensures ok <==> PublishJob(old(jobs), e).Some?
      ensures jobs == if ok then PublishJob(old(jobs), e).value else old(jobs)
    {
      if !IsUuid(e.id) {
        return false;
      }
      if !HasJob(jobs, e.id) {
        jobs := jobs + [e];
      }
      return true;
    }
  }
}
