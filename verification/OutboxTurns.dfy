/** Whole turns of the relay: claim a batch, publish and acknowledge in order, give up at the first failure. */
module OutboxTurns {
  import opened KeyOrder
  import opened OutboxGuarantees
  import opened OutboxRuns
  import opened OutboxStore
  import opened Uuids
  import opened Wrappers

  /** The loop over the claims; after a failure the relay holds nothing and the remaining steps do nothing. */
  function Deliveries(r: nat, n: nat, deliveredAt: int): seq<Event> {
    if n == 0 then [] else [Publish(r), Acknowledge(r, deliveredAt)] + Deliveries(r, n - 1, deliveredAt)
  }

  /** `runOnce`, undisturbed by others: `order` is how the database returns the batch. */
  ghost function Turn(
      w: World, r: nat, limit: int, leaseMs: int, locked: set<string>, order: seq<string>, deliveredAt: int): World
  {
    Run(Step(w, ClaimBatch(r, limit, leaseMs, locked, order)), Deliveries(r, |order|, deliveredAt))
  }

  /** Every id up to this place is a UUID. */
  predicate UuidsUpTo(ids: seq<string>, i: nat) {
    forall j | 0 <= j <= i && j < |ids| :: IsUuid(ids[j])
  }

  predicate InUuidPrefix(ids: seq<string>, id: string) {
    exists i | 0 <= i < |ids| :: ids[i] == id && UuidsUpTo(ids, i)
  }

  function IdsOf(claims: seq<Claim>): seq<string> {
    seq(|claims|, i requires 0 <= i < |claims| => claims[i].envelope.id)
  }

  // ----- one turn

  lemma {:induction false} IdleStays(w: World, r: nat, n: nat, deliveredAt: int)
    requires Held(w, r).claims == []
    ensures Run(w, Deliveries(r, n, deliveredAt)) == w
  {
    if n > 0 {
      IdleStays(w, r, n - 1, deliveredAt);
      TwoEvents(w, Publish(r), Acknowledge(r, deliveredAt));
      RunAppends(w, [Publish(r), Acknowledge(r, deliveredAt)], Deliveries(r, n - 1, deliveredAt));
    }
  }

  /** A claim whose id is no UUID ends the turn. */
  lemma RefusedFirst(w: World, r: nat, deliveredAt: int)
    requires Held(w, r).claims != [] && !Held(w, r).published && !IsUuid(Held(w, r).claims[0].envelope.id)
    ensures var after := Run(w, [Publish(r), Acknowledge(r, deliveredAt)]);
      after.rows == w.rows && after.now == w.now && after.relays == w.relays[r := IDLE]
  {
    TwoEvents(w, Publish(r), Acknowledge(r, deliveredAt));
    hide AcknowledgeRow, AppendRow, ReturnsSelection;
  }

  lemma UuidPrefixStep(ids: seq<string>, id: string)
    requires ids != []
    ensures InUuidPrefix(ids, id) <==> IsUuid(ids[0]) && (id == ids[0] || InUuidPrefix(ids[1..], id))
  {
    hide IsUuid;
    if i :| 0 <= i < |ids| && ids[i] == id && UuidsUpTo(ids, i) {
      if i > 0 {
        assert ids[1..][i - 1] == id && UuidsUpTo(ids[1..], i - 1);
      }
    }
    if IsUuid(ids[0]) {
      assert UuidsUpTo(ids, 0);
      if i :| 0 <= i < |ids| - 1 && ids[1..][i] == id && UuidsUpTo(ids[1..], i) {
        assert forall j | 0 < j <= i + 1 && j < |ids| :: ids[j] == ids[1..][j - 1];
        assert ids[i + 1] == id && UuidsUpTo(ids, i + 1);
      }
    }
  }

  /** The rows before the first id that is no UUID are delivered, no other row has changed, and the relay is idle. */
  ghost predicate PrefixDelivered(w: World, after: World, r: nat, ids: seq<string>, deliveredAt: int) {
    && after.rows.Keys == w.rows.Keys && after.now == w.now
    && (forall id | id in w.rows ::
          after.rows[id] == if InUuidPrefix(ids, id) then DeliveredRow(w.rows[id], deliveredAt) else w.rows[id])
    && Held(after, r) == IDLE
    && (forall s | s != r :: Held(after, s) == Held(w, s))
  }

  /** The claims of a relay that has published none of them yet are current and on different rows. */
  predicate FreshClaims(w: World, r: nat) {
    var held := Held(w, r);
    && !held.published
    && (forall i | 0 <= i < |held.claims| :: Current(w, held.claims[i]))
    && (forall i, j | 0 <= i < j < |held.claims| :: held.claims[i].envelope.id != held.claims[j].envelope.id)
  }

  lemma {:induction false} RestIsDelivered(w: World, r: nat, n: nat, deliveredAt: int)
    requires FreshClaims(w, r) && |Held(w, r).claims| <= n
    ensures PrefixDelivered(w, Run(w, Deliveries(r, n, deliveredAt)), r, IdsOf(Held(w, r).claims), deliveredAt)
    decreases n
  {
    hide Run, Step, IsUuid, InUuidPrefix, FreshClaims, Current;
    var claims := Held(w, r).claims;
    FirstIsCurrent(w, r);
    if claims == [] {
      IdleStays(w, r, n, deliveredAt);
      assert IdsOf(claims) == [];
      NothingInPrefix();
    } else {
      hide PrefixDelivered;
      var pair := [Publish(r), Acknowledge(r, deliveredAt)];
      var next := Run(w, pair);
      RunAppends(w, pair, Deliveries(r, n - 1, deliveredAt));
      if IsUuid(claims[0].envelope.id) {
        DeliveredFirst(w, r, deliveredAt);
        OthersStayFresh(w, next, r, deliveredAt);
        RestIsDelivered(next, r, n - 1, deliveredAt);
        DeliveredThenRest(w, next, Run(next, Deliveries(r, n - 1, deliveredAt)), r, deliveredAt);
      } else {
        RefusedFirst(w, r, deliveredAt);
        IdleStays(next, r, n - 1, deliveredAt);
        NothingDelivered(w, next, r, IdsOf(claims), deliveredAt);
      }
    }
  }

  lemma NothingInPrefix()
    ensures forall id :: !InUuidPrefix([], id)
  {
  }

  lemma FirstIsCurrent(w: World, r: nat)
    requires FreshClaims(w, r)
    ensures !Held(w, r).published
    ensures Held(w, r).claims != [] ==> Current(w, Held(w, r).claims[0])
  {
  }

  lemma OthersStayFresh(w: World, next: World, r: nat, deliveredAt: int)
    requires FreshClaims(w, r) && Held(w, r).claims != []
    requires var id := Held(w, r).claims[0].envelope.id;
      id in w.rows && next.rows == w.rows[id := DeliveredRow(w.rows[id], deliveredAt)]
    requires Held(next, r) == Relay(Held(w, r).claims[1..], false)
    ensures FreshClaims(next, r)
  {
    var claims := Held(w, r).claims;
    forall i | 0 <= i < |claims| - 1 ensures Current(next, claims[1..][i]) {
      assert Current(w, claims[i + 1]) && claims[0].envelope.id != claims[i + 1].envelope.id;
    }
  }

  lemma DeliveredThenRest(w: World, next: World, after: World, r: nat, deliveredAt: int)
    requires FreshClaims(w, r) && Held(w, r).claims != []
    requires var id := Held(w, r).claims[0].envelope.id;
      && IsUuid(id) && id in w.rows
      && next.rows == w.rows[id := DeliveredRow(w.rows[id], deliveredAt)] && next.now == w.now
    requires forall s | s != r :: Held(next, s) == Held(w, s)
    requires PrefixDelivered(next, after, r, IdsOf(Held(w, r).claims[1..]), deliveredAt)
    ensures PrefixDelivered(w, after, r, IdsOf(Held(w, r).claims), deliveredAt)
  {
    hide IsUuid, InUuidPrefix;
    var claims := Held(w, r).claims;
    var ids := IdsOf(claims);
    assert IdsOf(claims[1..]) == ids[1..];
    assert forall i | 0 <= i < |ids| :: ids[i] == claims[i].envelope.id;
    NotAgain(ids);
    forall id | id in w.rows ensures InUuidPrefix(ids, id) <==> id == ids[0] || InUuidPrefix(ids[1..], id) {
      UuidPrefixStep(ids, id);
    }
  }

  lemma NothingDelivered(w: World, after: World, r: nat, ids: seq<string>, deliveredAt: int)
    requires ids != [] && !IsUuid(ids[0])
    requires after.rows == w.rows && after.now == w.now && after.relays == w.relays[r := IDLE]
    ensures PrefixDelivered(w, after, r, ids, deliveredAt)
  {
    hide IsUuid, InUuidPrefix;
    forall id ensures !InUuidPrefix(ids, id) {
      UuidPrefixStep(ids, id);
    }
  }

  lemma NotAgain(ids: seq<string>)
    requires ids != [] && forall i, j | 0 <= i < j < |ids| :: ids[i] != ids[j]
    ensures !InUuidPrefix(ids[1..], ids[0])
  {
    assert forall i | 0 <= i < |ids| - 1 :: ids[1..][i] == ids[i + 1];
  }

  /**
   * A turn delivers exactly the batch before the first id that is no UUID, in the order returned. The rest of the batch
   * stays claimed until the lease ends, and no other row changes.
   */
  lemma TurnDeliversPrefix(
      w: World, r: nat, limit: int, leaseMs: int, locked: set<string>, order: seq<string>, deliveredAt: int)
    requires Held(w, r) == IDLE && 1 <= limit <= 100 && leaseMs >= 1 && ReturnsSelection(w, limit, locked, order)
    requires forall id | id in w.rows :: w.rows[id].envelope.id == id
    ensures var after := Turn(w, r, limit, leaseMs, locked, order, deliveredAt);
      PrefixDelivered(Step(w, ClaimBatch(r, limit, leaseMs, locked, order)), after, r, order, deliveredAt)
    ensures var claimed := Step(w, ClaimBatch(r, limit, leaseMs, locked, order));
      && claimed.rows == ClaimRows(w.rows, Members(order), w.serial, w.now + leaseMs)
      && claimed.now == w.now && forall s | s != r :: Held(claimed, s) == Held(w, s)
  {
    hide ReturnsSelection, Step, Run, PrefixDelivered, FreshClaims, Claiming, IsUuid, Eligible, Deliveries;
    SelectedAreEligible(w, limit, locked, order);
    var claimed := Step(w, ClaimBatch(r, limit, leaseMs, locked, order));
    StepClaims(w, r, limit, leaseMs, locked, order);
    ClaimingIsFresh(w, r, w.now + leaseMs, order);
    RestIsDelivered(claimed, r, |order|, deliveredAt);
  }

  lemma ClaimingIsFresh(w: World, r: nat, until: int, order: seq<string>)
    requires forall i | 0 <= i < |order| :: order[i] in w.rows && Eligible(w.rows[order[i]], w.now)
    requires forall i, j | 0 <= i < j < |order| :: order[i] != order[j]
    requires forall id | id in w.rows :: w.rows[id].envelope.id == id
    ensures var claimed := Claiming(w, r, until, order);
      FreshClaims(claimed, r) && IdsOf(Held(claimed, r).claims) == order
  {
    var claimed := Claiming(w, r, until, order);
    var claims := Held(claimed, r).claims;
    forall i | 0 <= i < |claims| ensures Current(claimed, claims[i]) {
      assert order[i] in Members(order);
    }
    assert forall i | 0 <= i < |order| :: claims[i].envelope.id == order[i];
  }

  lemma StepClaims(w: World, r: nat, limit: int, leaseMs: int, locked: set<string>, order: seq<string>)
    requires Held(w, r) == IDLE && 1 <= limit <= 100 && leaseMs >= 1 && ReturnsSelection(w, limit, locked, order)
    requires forall i | 0 <= i < |order| :: order[i] in w.rows
    ensures Step(w, ClaimBatch(r, limit, leaseMs, locked, order)) == Claiming(w, r, w.now + leaseMs, order)
    ensures forall i, j | 0 <= i < j < |order| :: order[i] != order[j]
    ensures Claiming(w, r, w.now + leaseMs, order).rows == ClaimRows(w.rows, Members(order), w.serial, w.now + leaseMs)
    ensures Claiming(w, r, w.now + leaseMs, order).now == w.now
    ensures forall s | s != r :: Held(Claiming(w, r, w.now + leaseMs, order), s) == Held(w, s)
  {
    hide ClaimRows, Claimed, PublishJob, AcknowledgeRow, AppendRow, Selection, Candidates;
  }

  // ----- one bad id at the head

  /** Between turns: time passes, envelopes arrive, and a relay takes a turn that returns its batch in order. */
  datatype Moment =
    | Wait(milliseconds: nat)
    | Arrival(envelope: Envelope)
    | RunOnce(relay: nat, leaseMs: int, deliveredAt: int)

  ghost function Batch(w: World, limit: nat): seq<string> {
    Selection(w.rows, Candidates(w.rows, w.now, {}), limit)
  }

  ghost function After(w: World, limit: nat, m: Moment): World {
    match m
    case Wait(milliseconds) => Step(w, Tick(milliseconds))
    case Arrival(envelope) => Step(w, Append(envelope))
    case RunOnce(r, leaseMs, deliveredAt) =>
      if leaseMs < 1 then w else Turn(w, r, limit, leaseMs, {}, Batch(w, limit), deliveredAt)
  }

  ghost function AfterAll(w: World, limit: nat, moments: seq<Moment>): World {
    if moments == [] then w
    else After(AfterAll(w, limit, moments[..|moments| - 1]), limit, moments[|moments| - 1])
  }

  /** `(occurred_at, id)` is smaller. */
  predicate Precedes(a: Envelope, b: Envelope) {
    a.occurredAt < b.occurredAt || (a.occurredAt == b.occurredAt && LexBefore(a.id, b.id))
  }

  /**
   * These rows, as many as a batch, are first in the order of claims, are due, share the end of their lease, and begin
   * with an id that is no UUID; no relay is at work.
   */
  ghost predicate HeldBack(w: World, limit: nat, group: seq<string>) {
    && 1 <= |group| == limit <= 100 && !IsUuid(group[0])
    && (forall i | 0 <= i < |group| :: InGroup(w, group[0], group[i]))
    && (forall i, j | 0 <= i < j < |group| :: Precedes(w.rows[group[i]].envelope, w.rows[group[j]].envelope))
    && (forall i, id | 0 <= i < |group| && id in w.rows && id !in group && !Delivered(w, id) ::
          Precedes(w.rows[group[i]].envelope, w.rows[id].envelope))
    && (forall id | id in w.rows :: w.rows[id].envelope.id == id)
    && (forall r :: Held(w, r) == IDLE)
  }

  predicate InGroup(w: World, head: string, id: string) {
    && head in w.rows && id in w.rows && w.rows[id].deliveredAt.None? && w.rows[id].availableAt <= w.now
    && w.rows[id].claimedUntil == w.rows[head].claimedUntil
  }

  /** The envelope comes after all of the group in the order of claims. */
  predicate ComesLater(w: World, group: seq<string>, e: Envelope) {
    forall i | 0 <= i < |group| && group[i] in w.rows :: Precedes(w.rows[group[i]].envelope, e)
  }

  /** What a step has to leave alone: the group, and that everything else undelivered comes later. */
  lemma GroupKept(w: World, after: World, limit: nat, group: seq<string>)
    requires HeldBack(w, limit, group)
    requires forall r :: Held(after, r) == Held(w, r)
    requires forall i | 0 <= i < |group| :: InGroup(after, group[0], group[i])
    requires forall i | 0 <= i < |group| ::
      group[i] in w.rows && group[i] in after.rows && after.rows[group[i]].envelope == w.rows[group[i]].envelope
    requires forall id | id in after.rows && id !in group && !Delivered(after, id) ::
      || ComesLater(w, group, after.rows[id].envelope)
      || (id in w.rows && !Delivered(w, id) && after.rows[id].envelope == w.rows[id].envelope)
    requires forall id | id in after.rows :: after.rows[id].envelope.id == id
    ensures HeldBack(after, limit, group)
  {
    hide IsUuid, Precedes, InGroup;
  }

  lemma {:induction false} FirstAreSelected(rows: Rows, ids: set<string>, group: seq<string>)
    requires ids <= rows.Keys
    requires forall i | 0 <= i < |group| :: group[i] in ids
    requires forall i, j | 0 <= i < j < |group| :: group[i] != group[j] && Earlier(rows, group[i], group[j])
    requires forall i, id | 0 <= i < |group| && id in ids && id !in group :: Earlier(rows, group[i], id)
    ensures Selection(rows, ids, |group|) == group
    decreases |group|
  {
    if group == [] {
      NothingSelected(rows, ids, 0);
    } else {
      var first, rest := group[0], group[1..];
      forall other | other in ids ensures other == first || Earlier(rows, first, other) {
        if other in group {
          var i :| 0 <= i < |group| && group[i] == other;
        }
      }
      assert IsEarliest(rows, ids, first);
      SelectionStep(rows, ids, |group|, first);
      hide Earlier, IsEarliest, Selection;
      forall i | 0 <= i < |rest| ensures rest[i] in ids - {first} {
        assert rest[i] == group[i + 1];
      }
      assert group == [first] + rest;
      FirstAreSelected(rows, ids - {first}, rest);
    }
  }

  lemma BatchIsReturned(w: World, limit: nat)
    ensures ReturnsSelection(w, limit, {}, Batch(w, limit))
    ensures forall i | 0 <= i < |Batch(w, limit)| :: Batch(w, limit)[i] in Candidates(w.rows, w.now, {})
  {
    var candidates := Candidates(w.rows, w.now, {});
    SelectionMeaning(w.rows, candidates, limit);
    var selected := Selection(w.rows, candidates, limit);
    forall i, j | 0 <= i < j < |selected| ensures selected[i] != selected[j] {
      EarlierIsTotal(w.rows, selected[i], selected[j]);
    }
  }

  lemma GroupIsBatch(w: World, limit: nat, group: seq<string>)
    requires HeldBack(w, limit, group) && Eligible(w.rows[group[0]], w.now)
    ensures Batch(w, limit) == group
  {
    var candidates := Candidates(w.rows, w.now, {});
    forall i | 0 <= i < |group| ensures group[i] in candidates {
      assert InGroup(w, group[0], group[i]);
    }
    forall i, j | 0 <= i < j < |group| ensures group[i] != group[j] && Earlier(w.rows, group[i], group[j]) {
      EarlierIsTotal(w.rows, group[i], group[j]);
    }
    FirstAreSelected(w.rows, candidates, group);
  }

  /** A turn leaves the whole group undelivered: it claims all of it and fails at the first, or none of it. */
  lemma TurnKeepsHeldBack(w: World, limit: nat, group: seq<string>, r: nat, leaseMs: int, deliveredAt: int)
    requires HeldBack(w, limit, group) && leaseMs >= 1
    ensures HeldBack(Turn(w, r, limit, leaseMs, {}, Batch(w, limit), deliveredAt), limit, group)
  {
    hide Turn, Batch, Step, ReturnsSelection, IsUuid, InUuidPrefix, HeldBack;
    var batch := Batch(w, limit);
    var after := Turn(w, r, limit, leaseMs, {}, batch, deliveredAt);
    BatchIsReturned(w, limit);
    HeldBackHead(w, limit, group);
    TurnDeliversPrefix(w, r, limit, leaseMs, {}, batch, deliveredAt);
    if Eligible(w.rows[group[0]], w.now) {
      GroupIsBatch(w, limit, group);
      forall id ensures !InUuidPrefix(batch, id) {
        UuidPrefixStep(batch, id);
      }
    } else {
      NoneIsCandidate(w, limit, group);
    }
    forall id | InUuidPrefix(batch, id) ensures id in batch {
      PrefixIsMember(batch, id);
    }
    BatchKeepsGroup(w, limit, group, batch, after, w.now + leaseMs, deliveredAt);
  }

  lemma PrefixIsMember(ids: seq<string>, id: string)
    requires InUuidPrefix(ids, id)
    ensures id in ids
  {
  }

  lemma HeldBackHead(w: World, limit: nat, group: seq<string>)
    requires HeldBack(w, limit, group)
    ensures 1 <= |group| == limit <= 100 && group[0] in w.rows && !IsUuid(group[0])
    ensures forall id | id in w.rows :: w.rows[id].envelope.id == id
    ensures forall r :: Held(w, r) == IDLE
  {
    hide IsUuid;
    assert InGroup(w, group[0], group[0]);
  }

  lemma NoneIsCandidate(w: World, limit: nat, group: seq<string>)
    requires HeldBack(w, limit, group) && !Eligible(w.rows[group[0]], w.now)
    ensures forall i | 0 <= i < |group| :: group[i] !in Candidates(w.rows, w.now, {})
  {
    hide IsUuid;
    forall i | 0 <= i < |group| ensures group[i] !in Candidates(w.rows, w.now, {}) {
      assert InGroup(w, group[0], group[i]) && InGroup(w, group[0], group[0]);
    }
  }

  /** Either the batch is the group and nothing of it was delivered, or the two have nothing in common. */
  lemma BatchKeepsGroup(
      w: World, limit: nat, group: seq<string>, batch: seq<string>, after: World, until: int, deliveredAt: int)
    requires HeldBack(w, limit, group)
    requires after.rows.Keys == w.rows.Keys && after.now == w.now && forall r :: Held(after, r) == IDLE
    requires forall id | id in w.rows ::
      var row := if id in batch then ClaimRow(w.rows[id], w.serial, until) else w.rows[id];
      after.rows[id] == row || (id in batch && batch != group && after.rows[id] == DeliveredRow(row, deliveredAt))
    requires batch == group || forall i | 0 <= i < |group| :: group[i] !in batch
    ensures HeldBack(after, limit, group)
  {
    hide IsUuid;
    forall i | 0 <= i < |group|
      ensures InGroup(after, group[0], group[i])
      ensures group[i] in w.rows && after.rows[group[i]].envelope == w.rows[group[i]].envelope
    {
      assert InGroup(w, group[0], group[i]) && InGroup(w, group[0], group[0]);
    }
    hide InGroup, HeldBack;
    GroupKept(w, after, limit, group);
  }

  lemma WaitKeepsHeldBack(w: World, limit: nat, group: seq<string>, milliseconds: nat)
    requires HeldBack(w, limit, group)
    ensures HeldBack(Step(w, Tick(milliseconds)), limit, group)
  {
    hide IsUuid;
    var after := Step(w, Tick(milliseconds));
    assert after == w.(now := w.now + milliseconds);
    hide Step;
    forall i | 0 <= i < |group| ensures InGroup(after, group[0], group[i]) {
      assert InGroup(w, group[0], group[i]);
    }
    GroupKept(w, after, limit, group);
  }

  lemma ArrivalKeepsHeldBack(w: World, limit: nat, group: seq<string>, e: Envelope)
    requires HeldBack(w, limit, group) && ComesLater(w, group, e)
    ensures HeldBack(Step(w, Append(e)), limit, group)
  {
    hide IsUuid;
    var after := Step(w, Append(e));
    assert after == if e.id in w.rows then w else w.(rows := w.rows[e.id := Row(e, e.occurredAt, None, None, 0, None)]);
    hide Step;
    forall i | 0 <= i < |group| ensures InGroup(after, group[0], group[i]) && after.rows[group[i]] == w.rows[group[i]] {
      assert InGroup(w, group[0], group[i]) && InGroup(w, group[0], group[0]);
    }
    GroupKept(w, after, limit, group);
  }

  /**
   * An id that is no UUID at the head holds its whole batch back: while relays take undisturbed turns with one limit,
   * and batches come back in order, no row of that batch is ever delivered.
   */
  lemma {:induction false} HeadHoldsBatchBack(w: World, limit: nat, group: seq<string>, moments: seq<Moment>)
    requires HeldBack(w, limit, group)
    requires forall i | 0 <= i < |moments| && moments[i].Arrival? :: ComesLater(w, group, moments[i].envelope)
    ensures HeldBack(AfterAll(w, limit, moments), limit, group)
    ensures forall i | 0 <= i < |group| :: !Delivered(AfterAll(w, limit, moments), group[i])
  {
    hide HeldBack, Step, Turn;
    if moments != [] {
      var front, last := moments[..|moments| - 1], moments[|moments| - 1];
      var before := AfterAll(w, limit, front);
      HeadHoldsBatchBack(w, limit, group, front);
      match last {
        case Wait(milliseconds) => WaitKeepsHeldBack(before, limit, group, milliseconds);
        case Arrival(envelope) =>
          EnvelopesStay(w, limit, group, front, envelope);
          ArrivalKeepsHeldBack(before, limit, group, envelope);
        case RunOnce(r, leaseMs, deliveredAt) =>
          if leaseMs >= 1 {
            TurnKeepsHeldBack(before, limit, group, r, leaseMs, deliveredAt);
          }
      }
    }
    NotDelivered(AfterAll(w, limit, moments), limit, group);
  }

  lemma NotDelivered(w: World, limit: nat, group: seq<string>)
    requires HeldBack(w, limit, group)
    ensures forall i | 0 <= i < |group| :: group[i] in w.rows && !Delivered(w, group[i])
  {
    hide IsUuid;
    forall i | 0 <= i < |group| ensures group[i] in w.rows && !Delivered(w, group[i]) {
      assert InGroup(w, group[0], group[i]);
    }
  }

  lemma EnvelopesStay(w: World, limit: nat, group: seq<string>, moments: seq<Moment>, e: Envelope)
    requires HeldBack(w, limit, group) && ComesLater(w, group, e)
    ensures ComesLater(AfterAll(w, limit, moments), group, e)
  {
    NotDelivered(w, limit, group);
    forall i | 0 <= i < |group|
      ensures var after := AfterAll(w, limit, moments);
        group[i] in after.rows && after.rows[group[i]].envelope == w.rows[group[i]].envelope
    {
      EnvelopeStays(w, limit, moments, group[i]);
    }
  }

  lemma {:induction false} EnvelopeStays(w: World, limit: nat, moments: seq<Moment>, id: string)
    requires id in w.rows
    ensures var after := AfterAll(w, limit, moments);
      id in after.rows && after.rows[id].envelope == w.rows[id].envelope
  {
    if moments != [] {
      var front, last := moments[..|moments| - 1], moments[|moments| - 1];
      var before := AfterAll(w, limit, front);
      EnvelopeStays(w, limit, front, id);
      match last {
        case Wait(milliseconds) => StepKeepsRow(before, Tick(milliseconds), id);
        case Arrival(envelope) => StepKeepsRow(before, Append(envelope), id);
        case RunOnce(r, leaseMs, deliveredAt) =>
          var claim := ClaimBatch(r, limit, leaseMs, {}, Batch(before, limit));
          StepKeepsRow(before, claim, id);
          AppendedIsKept(Step(before, claim), Deliveries(r, |Batch(before, limit)|, deliveredAt), id);
      }
      hide Step, Run;
    }
  }
}
