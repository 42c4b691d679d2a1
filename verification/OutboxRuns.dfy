/** Every interleaving of appends, relays and crashes over the outbox table and the queue. */
module OutboxRuns {
  import opened OutboxStore
  import opened Uuids
  import opened Wrappers

  /** What a relay still has to do: its claims in order, and whether the first of them has been published. */
  datatype Relay = Relay(claims: seq<Claim>, published: bool)

  /** `claimLog` and `acknowledged` record every claim and every acknowledgement of the run. */
  datatype World = World(
    rows: Rows,
    now: int,
    serial: nat,
    jobs: seq<Envelope>,
    relays: map<nat, Relay>,
    claimLog: seq<Claim>,
    acknowledged: seq<Claim>
  )

  datatype Event =
    | Append(envelope: Envelope)
    | Tick(milliseconds: nat)
    | ClaimBatch(relay: nat, limit: int, leaseMs: int, locked: set<string>, order: seq<string>)
    | Publish(relay: nat)
    | Acknowledge(relay: nat, deliveredAt: int)
    | Crash(relay: nat)

  const IDLE := Relay([], false)

  function Held(w: World, r: nat): Relay {
    if r in w.relays then w.relays[r] else IDLE
  }

  function WithRelay(w: World, r: nat, relay: Relay): World {
    w.(relays := w.relays[r := relay])
  }

  /** `order` lists exactly the selected rows, in the order in which the database happens to return them. */
  ghost predicate ReturnsSelection(w: World, limit: nat, locked: set<string>, order: seq<string>) {
    && (forall i, j | 0 <= i < j < |order| :: order[i] != order[j])
    && Members(order) == Members(Selection(w.rows, Candidates(w.rows, w.now, locked), limit))
  }

  /** Claim, publish, acknowledge: the loop of the relay, cut into the steps between which others may act. */
  ghost function Step(w: World, e: Event): World {
    match e
    case Append(envelope) =>
      var rows := AppendRow(w.rows, envelope);
      if rows.None? then w else w.(rows := rows.value)
    case Tick(milliseconds) => w.(now := w.now + milliseconds)
    case ClaimBatch(r, limit, leaseMs, locked, order) =>
      if Held(w, r).claims != [] || !(1 <= limit <= 100) || leaseMs < 1 || !ReturnsSelection(w, limit, locked, order)
      then w
      else
        SelectedAreEligible(w, limit, locked, order);
        Claiming(w, r, w.now + leaseMs, order)
    case Publish(r) =>
      var held := Held(w, r);
      if held.claims == [] || held.published then w
      else
        var jobs := PublishJob(w.jobs, held.claims[0].envelope);
        if jobs.None? then WithRelay(w, r, IDLE)
        else WithRelay(w, r, held.(published := true)).(jobs := jobs.value)
    case Acknowledge(r, deliveredAt) =>
      var held := Held(w, r);
      if held.claims == [] || !held.published then w
      else
        var rows := AcknowledgeRow(w.rows, held.claims[0], deliveredAt);
        if rows.None? then WithRelay(w, r, IDLE)
        else
          WithRelay(w, r, Relay(held.claims[1..], false))
            .(rows := rows.value, acknowledged := w.acknowledged + [held.claims[0]])
    case Crash(r) => WithRelay(w, r, IDLE)
  }

  /** The claim of these rows, whose ids are known. */
  ghost function Claiming(w: World, r: nat, until: int, order: seq<string>): World
    requires forall i | 0 <= i < |order| :: order[i] in w.rows
  {
    var batch := Claimed(w.rows, order, w.serial, until);
    WithRelay(w, r, Relay(batch, false))
      .(rows := ClaimRows(w.rows, Members(order), w.serial, until),
        serial := w.serial + 1,
        claimLog := w.claimLog + batch)
  }

  lemma SelectedAreEligible(w: World, limit: nat, locked: set<string>, order: seq<string>)
    requires ReturnsSelection(w, limit, locked, order)
    ensures forall i | 0 <= i < |order| :: order[i] in w.rows && Eligible(w.rows[order[i]], w.now)
  {
    var candidates := Candidates(w.rows, w.now, locked);
    SelectionMeaning(w.rows, candidates, limit);
    forall i | 0 <= i < |order| ensures order[i] in candidates {
      assert order[i] in Members(order);
    }
  }

  ghost function Run(w: World, events: seq<Event>): World {
    if events == [] then w else Step(Run(w, events[..|events| - 1]), events[|events| - 1])
  }

  const START := World(map[], 0, 0, [], map[], [], [])

  // ----- the invariant

  /** The token of the latest claim on a row. */
  function LastClaim(log: seq<Claim>, id: string): Option<nat> {
    if log == [] then None
    else if log[|log| - 1].envelope.id == id then Some(log[|log| - 1].token)
    else LastClaim(log[..|log| - 1], id)
  }

  ghost predicate RowSound(w: World, id: string, row: Row) {
    && row.envelope.id == id
    && (row.claimToken.Some? <==> row.claimedUntil.Some?)
    && (row.claimToken.Some? ==> row.claimToken.value < w.serial)
    && (row.deliveredAt.Some? ==> row.claimToken.None? && row.envelope in w.jobs)
    && (row.deliveredAt.None? ==> row.claimToken == LastClaim(w.claimLog, id))
    && row.availableAt == row.envelope.occurredAt
  }

  ghost predicate RowsSound(w: World) {
    forall id | id in w.rows :: RowSound(w, id, w.rows[id])
  }

  ghost predicate JobSound(w: World, job: Envelope) {
    job.id in w.rows && w.rows[job.id].envelope == job && IsUuid(job.id)
  }

  ghost predicate JobsSound(w: World) {
    && (forall i | 0 <= i < |w.jobs| :: JobSound(w, w.jobs[i]))
    && (forall i, j | 0 <= i < j < |w.jobs| :: w.jobs[i].id != w.jobs[j].id)
  }

  /** Until its lease ends, a claim is the one on its row; and no later claim has the same token. */
  ghost predicate ClaimSound(w: World, c: Claim) {
    && c.token < w.serial
    && c.envelope.id in w.rows
    && w.rows[c.envelope.id].envelope == c.envelope
    && (w.rows[c.envelope.id].claimToken == Some(c.token) ==> w.rows[c.envelope.id].claimedUntil == Some(c.until))
    && (w.now < c.until ==> w.rows[c.envelope.id].claimToken == Some(c.token))
  }

  ghost predicate RelaySound(w: World, relay: Relay) {
    && (forall i | 0 <= i < |relay.claims| :: ClaimSound(w, relay.claims[i]))
    && (forall i, j | 0 <= i < j < |relay.claims| :: relay.claims[i].envelope.id != relay.claims[j].envelope.id)
    && (relay.published ==> relay.claims != [] && relay.claims[0].envelope in w.jobs)
  }

  ghost predicate RelaysSound(w: World) {
    && (forall r | r in w.relays :: RelaySound(w, w.relays[r]))
    && (forall r, s | r in w.relays && s in w.relays && r != s :: NoSharedToken(w.relays[r].claims, w.relays[s].claims))
  }

  predicate NoSharedToken(a: seq<Claim>, b: seq<Claim>) {
    forall i, j | 0 <= i < |a| && 0 <= j < |b| :: a[i].token != b[j].token
  }

  /** Each acknowledgement came from the latest claimant, and there is one for every delivered row. */
  ghost predicate AcknowledgedSound(w: World) {
    && (forall i | 0 <= i < |w.acknowledged| ::
          && w.acknowledged[i].envelope.id in w.rows
          && w.rows[w.acknowledged[i].envelope.id].deliveredAt.Some?
          && LastClaim(w.claimLog, w.acknowledged[i].envelope.id) == Some(w.acknowledged[i].token))
    && (forall i, j | 0 <= i < j < |w.acknowledged| :: w.acknowledged[i].envelope.id != w.acknowledged[j].envelope.id)
  }

  /** A claim is logged only while its row is there. */
  ghost predicate LogSound(w: World) {
    forall i | 0 <= i < |w.claimLog| :: w.claimLog[i].envelope.id in w.rows
  }

  ghost predicate Sound(w: World) {
    RowsSound(w) && JobsSound(w) && RelaysSound(w) && AcknowledgedSound(w) && LogSound(w)
  }

  // ----- every step keeps it

  lemma {:induction false} LastClaimOfUnknown(log: seq<Claim>, id: string)
    requires forall i | 0 <= i < |log| :: log[i].envelope.id != id
    ensures LastClaim(log, id) == None
  {
    if log != [] {
      LastClaimOfUnknown(log[..|log| - 1], id);
    }
  }

  lemma {:induction false} LastClaimAfterBatch(log: seq<Claim>, batch: seq<Claim>, token: nat, id: string)
    requires forall i | 0 <= i < |batch| :: batch[i].token == token
    ensures LastClaim(log + batch, id)
      == if exists i | 0 <= i < |batch| :: batch[i].envelope.id == id then Some(token) else LastClaim(log, id)
  {
    if batch == [] {
      assert log + batch == log;
    } else {
      var last := |batch| - 1;
      LastClaimAfterBatch(log, batch[..last], token, id);
      assert (log + batch)[..|log + batch| - 1] == log + batch[..last];
      assert (exists i | 0 <= i < |batch| :: batch[i].envelope.id == id)
          <==> batch[last].envelope.id == id || exists i | 0 <= i < last :: batch[..last][i].envelope.id == id;
    }
  }

  lemma AppendKeepsSound(w: World, envelope: Envelope)
    requires Sound(w)
    ensures Sound(Step(w, Append(envelope)))
  {
    var after := Step(w, Append(envelope));
    if envelope.id !in w.rows {
      LastClaimOfUnknown(w.claimLog, envelope.id);
      forall r | r in w.relays ensures RelaySound(after, w.relays[r]) {
        assert RelaySound(w, w.relays[r]);
      }
      forall id | id in after.rows ensures RowSound(after, id, after.rows[id]) {
        assert id != envelope.id ==> RowSound(w, id, w.rows[id]);
      }
      forall i | 0 <= i < |w.jobs| ensures JobSound(after, w.jobs[i]) {
        assert JobSound(w, w.jobs[i]);
      }
    }
  }

  lemma TickKeepsSound(w: World, milliseconds: nat)
    requires Sound(w)
    ensures Sound(Step(w, Tick(milliseconds)))
  {
    var after := Step(w, Tick(milliseconds));
    forall r | r in w.relays ensures RelaySound(after, w.relays[r]) {
      assert RelaySound(w, w.relays[r]);
      forall i | 0 <= i < |w.relays[r].claims| ensures ClaimSound(after, w.relays[r].claims[i]) {
        assert ClaimSound(w, w.relays[r].claims[i]);
      }
    }
    forall id | id in w.rows ensures RowSound(after, id, w.rows[id]) {
      assert RowSound(w, id, w.rows[id]);
    }
  }

  lemma CrashKeepsSound(w: World, r: nat)
    requires Sound(w)
    ensures Sound(WithRelay(w, r, IDLE))
  {
    var after := WithRelay(w, r, IDLE);
    forall id | id in w.rows ensures RowSound(after, id, w.rows[id]) {
      assert RowSound(w, id, w.rows[id]);
    }
    RelayReplaced(w, after, r, IDLE);
  }

  /** A relay's work replaced by nothing or by a part of it, in a world that differs in nothing that claims see. */
  lemma RelayReplaced(w: World, after: World, r: nat, relay: Relay)
    requires RelaysSound(w) && after.relays == w.relays[r := relay]
    requires after.rows == w.rows && after.now == w.now && after.serial == w.serial
    requires forall e | e in w.jobs :: e in after.jobs
    requires RelaySound(after, relay)
    requires forall s | s in w.relays && s != r :: NoSharedToken(relay.claims, w.relays[s].claims)
    ensures RelaysSound(after)
  {
    forall s | s in w.relays && s != r ensures RelaySound(after, w.relays[s]) {
      assert RelaySound(w, w.relays[s]);
      forall i | 0 <= i < |w.relays[s].claims| ensures ClaimSound(after, w.relays[s].claims[i]) {
        assert ClaimSound(w, w.relays[s].claims[i]);
      }
    }
    RelaysAssembled(w, after, r, relay);
  }

  lemma PublishKeepsSound(w: World, r: nat)
    requires Sound(w)
    ensures Sound(Step(w, Publish(r)))
  {
    var held, after := Held(w, r), Step(w, Publish(r));
    if held.claims != [] && !held.published {
      var e := held.claims[0].envelope;
      assert RelaySound(w, held) && ClaimSound(w, held.claims[0]);
      var jobs := PublishJob(w.jobs, e);
      if jobs.None? {
        CrashKeepsSound(w, r);
      } else {
        assert e in jobs.value by {
          if i :| 0 <= i < |w.jobs| && w.jobs[i].id == e.id {
            assert JobSound(w, w.jobs[i]);
          } else {
            assert jobs.value[|w.jobs|] == e;
          }
        }
        PublishedJobsSound(w, after, e);
        assert forall i | 0 <= i < |held.claims| :: ClaimSound(w, held.claims[i]) && ClaimSound(after, held.claims[i]);
        RelayReplaced(w, after, r, held.(published := true));
        forall id | id in w.rows ensures RowSound(after, id, w.rows[id]) {
          assert RowSound(w, id, w.rows[id]);
        }
      }
    }
  }

  lemma PublishedJobsSound(w: World, after: World, e: Envelope)
    requires JobsSound(w) && after.rows == w.rows && e.id in w.rows && w.rows[e.id].envelope == e
    requires PublishJob(w.jobs, e) == Some(after.jobs)
    ensures JobsSound(after)
  {
    forall i | 0 <= i < |after.jobs| ensures JobSound(after, after.jobs[i]) {
      assert i < |w.jobs| ==> JobSound(w, w.jobs[i]);
    }
  }

  lemma ClaimingKeepsSound(w: World, r: nat, until: int, order: seq<string>)
    requires Sound(w) && w.now < until
    requires forall i | 0 <= i < |order| :: order[i] in w.rows && Eligible(w.rows[order[i]], w.now)
    requires forall i, j | 0 <= i < j < |order| :: order[i] != order[j]
    ensures Sound(Claiming(w, r, until, order))
  {
    var after := Claiming(w, r, until, order);
    ClaimingKeepsRows(w, r, until, order);
    ClaimingKeepsRelays(w, r, until, order);
    forall i | 0 <= i < |w.jobs| ensures JobSound(after, w.jobs[i]) {
      assert JobSound(w, w.jobs[i]);
    }
    forall i | 0 <= i < |w.acknowledged|
      ensures var c := w.acknowledged[i];
        && c.envelope.id in after.rows && after.rows[c.envelope.id].deliveredAt.Some?
        && LastClaim(after.claimLog, c.envelope.id) == Some(c.token)
    {
      LastClaimAfterClaiming(w, r, until, order, w.acknowledged[i].envelope.id);
    }
  }

  lemma LastClaimAfterClaiming(w: World, r: nat, until: int, order: seq<string>, id: string)
    requires Sound(w) && forall i | 0 <= i < |order| :: order[i] in w.rows
    ensures LastClaim(Claiming(w, r, until, order).claimLog, id)
      == if id in order then Some(w.serial) else LastClaim(w.claimLog, id)
  {
    var batch := Claimed(w.rows, order, w.serial, until);
    LastClaimAfterBatch(w.claimLog, batch, w.serial, id);
    forall i | 0 <= i < |order| ensures batch[i].envelope.id == order[i] {
      assert RowSound(w, order[i], w.rows[order[i]]);
    }
    assert id in order <==> exists i | 0 <= i < |batch| :: batch[i].envelope.id == id;
  }

  lemma ClaimingKeepsRows(w: World, r: nat, until: int, order: seq<string>)
    requires Sound(w)
    requires forall i | 0 <= i < |order| :: order[i] in w.rows && Eligible(w.rows[order[i]], w.now)
    ensures RowsSound(Claiming(w, r, until, order))
  {
    var after := Claiming(w, r, until, order);
    forall id | id in after.rows ensures RowSound(after, id, after.rows[id]) {
      assert RowSound(w, id, w.rows[id]);
      LastClaimAfterClaiming(w, r, until, order, id);
    }
  }

  lemma ClaimingKeepsRelays(w: World, r: nat, until: int, order: seq<string>)
    requires Sound(w) && w.now < until
    requires forall i | 0 <= i < |order| :: order[i] in w.rows && Eligible(w.rows[order[i]], w.now)
    requires forall i, j | 0 <= i < j < |order| :: order[i] != order[j]
    ensures RelaysSound(Claiming(w, r, until, order))
  {
    var after := Claiming(w, r, until, order);
    var batch := Claimed(w.rows, order, w.serial, until);
    forall i | 0 <= i < |batch| ensures batch[i].envelope.id == order[i] && ClaimSound(after, batch[i]) {
      assert RowSound(w, order[i], w.rows[order[i]]);
    }
    forall s | s in w.relays && s != r
      ensures RelaySound(after, w.relays[s]) && NoSharedToken(batch, w.relays[s].claims)
    {
      assert RelaySound(w, w.relays[s]);
      forall i | 0 <= i < |w.relays[s].claims|
        ensures ClaimSound(after, w.relays[s].claims[i]) && w.relays[s].claims[i].token != w.serial
      {
        assert ClaimSound(w, w.relays[s].claims[i]);
      }
    }
    RelaysAssembled(w, after, r, Relay(batch, false));
  }

  lemma AcknowledgeKeepsSound(w: World, r: nat, deliveredAt: int)
    requires Sound(w)
    ensures Sound(Step(w, Acknowledge(r, deliveredAt)))
  {
    var held, after := Held(w, r), Step(w, Acknowledge(r, deliveredAt));
    if held.claims != [] && held.published {
      var c := held.claims[0];
      assert RelaySound(w, held) && ClaimSound(w, c);
      hide RowsSound, JobsSound, RelaysSound, RelaySound, ClaimSound, AcknowledgedSound, LogSound, AcknowledgeRow;
      if AcknowledgeRow(w.rows, c, deliveredAt).None? {
        CrashKeepsSound(w, r);
      } else {
        AcknowledgedRelays(w, r, deliveredAt);
        AcknowledgedRecords(w, after, c, deliveredAt);
      }
    }
  }

  lemma AcknowledgedRecords(w: World, after: World, c: Claim, deliveredAt: int)
    requires RowsSound(w) && JobsSound(w) && AcknowledgedSound(w) && LogSound(w)
    requires ClaimSound(w, c) && c.envelope in w.jobs && AcknowledgeRow(w.rows, c, deliveredAt) == Some(after.rows)
    requires after.jobs == w.jobs && after.serial == w.serial && after.claimLog == w.claimLog
    requires after.acknowledged == w.acknowledged + [c]
    ensures RowsSound(after) && JobsSound(after) && AcknowledgedSound(after) && LogSound(after)
  {
    assert RowSound(w, c.envelope.id, w.rows[c.envelope.id]);
    forall id | id in after.rows ensures RowSound(after, id, after.rows[id]) {
      assert RowSound(w, id, w.rows[id]);
    }
    forall i | 0 <= i < |w.jobs| ensures JobSound(after, w.jobs[i]) {
      assert JobSound(w, w.jobs[i]);
    }
  }

  /** An acknowledgement takes nothing from another claim: that one is on another row, or it has expired. */
  lemma OtherClaimStaysSound(w: World, after: World, c: Claim, d: Claim, deliveredAt: int)
    requires ClaimSound(w, d) && AcknowledgeRow(w.rows, c, deliveredAt) == Some(after.rows)
    requires after.now == w.now && after.serial == w.serial
    requires d.envelope.id != c.envelope.id || d.token != c.token
    ensures ClaimSound(after, d)
  {
  }

  lemma AcknowledgedRelays(w: World, r: nat, deliveredAt: int)
    requires Sound(w) && Held(w, r).claims != [] && Held(w, r).published
    requires AcknowledgeRow(w.rows, Held(w, r).claims[0], deliveredAt).Some?
    ensures RelaysSound(Step(w, Acknowledge(r, deliveredAt)))
  {
    var held, after := Held(w, r), Step(w, Acknowledge(r, deliveredAt));
    var c, rest := held.claims[0], Relay(held.claims[1..], false);
    assert RelaySound(w, held);
    hide AcknowledgeRow, ClaimSound;
    assert after.relays == w.relays[r := rest];
    forall s | s in w.relays && s != r ensures RelaySound(after, w.relays[s]) {
      OthersAfterAcknowledge(w, after, c, w.relays[s], r, s, deliveredAt);
    }
    forall i | 0 <= i < |rest.claims| ensures ClaimSound(after, rest.claims[i]) {
      OtherClaimStaysSound(w, after, c, held.claims[i + 1], deliveredAt);
    }
    forall s | s in w.relays && s != r ensures NoSharedToken(rest.claims, w.relays[s].claims) {
      assert NoSharedToken(held.claims, w.relays[s].claims);
    }
    RelaysAssembled(w, after, r, rest);
  }

  lemma RelaysAssembled(w: World, after: World, r: nat, relay: Relay)
    requires RelaysSound(w) && after.relays == w.relays[r := relay]
    requires RelaySound(after, relay)
    requires forall s | s in w.relays && s != r :: RelaySound(after, w.relays[s])
    requires forall s | s in w.relays && s != r :: NoSharedToken(relay.claims, w.relays[s].claims)
    ensures RelaysSound(after)
  {
    hide RelaySound;
    forall s | s in w.relays && s != r ensures NoSharedToken(w.relays[s].claims, relay.claims) {
      assert NoSharedToken(relay.claims, w.relays[s].claims);
    }
    hide NoSharedToken;
  }

  lemma OthersAfterAcknowledge(w: World, after: World, c: Claim, other: Relay, r: nat, s: nat, deliveredAt: int)
    requires RelaysSound(w) && r in w.relays && s in w.relays && r != s && w.relays[s] == other
    requires w.relays[r].claims != [] && w.relays[r].claims[0] == c
    requires AcknowledgeRow(w.rows, c, deliveredAt) == Some(after.rows)
    requires after.now == w.now && after.serial == w.serial && after.jobs == w.jobs
    ensures RelaySound(after, other)
  {
    assert RelaySound(w, other) && NoSharedToken(w.relays[r].claims, other.claims);
    hide AcknowledgeRow, ClaimSound;
    forall i | 0 <= i < |other.claims| ensures ClaimSound(after, other.claims[i]) {
      assert w.relays[r].claims[0].token != other.claims[i].token;
      OtherClaimStaysSound(w, after, c, other.claims[i], deliveredAt);
    }
  }

  lemma EveryStepKeepsSound(w: World, e: Event)
    requires Sound(w)
    ensures Sound(Step(w, e))
  {
    hide Sound;
    match e
    case Append(envelope) => AppendKeepsSound(w, envelope);
    case Tick(milliseconds) => TickKeepsSound(w, milliseconds);
    case ClaimBatch(r, limit, leaseMs, locked, order) =>
      if Step(w, e) != w {
        SelectedAreEligible(w, limit, locked, order);
        ClaimingKeepsSound(w, r, w.now + leaseMs, order);
      }
    case Publish(r) => PublishKeepsSound(w, r);
    case Acknowledge(r, deliveredAt) => AcknowledgeKeepsSound(w, r, deliveredAt);
    case Crash(r) => CrashKeepsSound(w, r);
  }

  lemma {:induction false} RunsAreSound(events: seq<Event>)
    ensures Sound(Run(START, events))
  {
    if events != [] {
      RunsAreSound(events[..|events| - 1]);
      EveryStepKeepsSound(Run(START, events[..|events| - 1]), events[|events| - 1]);
    }
  }
}
