/** What the outbox promises of every run. */
module OutboxGuarantees {
  import opened OutboxRuns
  import opened OutboxStore
  import opened Uuids
  import opened Wrappers

  predicate Delivered(w: World, id: string) {
    id in w.rows && w.rows[id].deliveredAt.Some?
  }

  /** At least once: what is marked delivered is in the queue, unchanged. */
  lemma DeliveredIsEnqueued(events: seq<Event>, id: string)
    ensures var w := Run(START, events); Delivered(w, id) ==> w.rows[id].envelope in w.jobs && IsUuid(id)
  {
    RunsAreSound(events);
    var w := Run(START, events);
    if Delivered(w, id) {
      assert RowSound(w, id, w.rows[id]);
      var i :| 0 <= i < |w.jobs| && w.jobs[i] == w.rows[id].envelope;
      assert JobSound(w, w.jobs[i]);
    }
  }

  /** At most one job for an envelope id, however often relays publish it, and no job for what was never appended. */
  lemma OneJobPerEnvelope(events: seq<Event>, i: nat, j: nat)
    ensures var w := Run(START, events);
      && (i < |w.jobs| ==>
            w.jobs[i].id in w.rows && w.rows[w.jobs[i].id].envelope == w.jobs[i] && IsUuid(w.jobs[i].id))
      && (i < |w.jobs| && j < |w.jobs| && w.jobs[i].id == w.jobs[j].id ==> i == j)
  {
    RunsAreSound(events);
    var w := Run(START, events);
    if i < |w.jobs| {
      assert JobSound(w, w.jobs[i]);
    }
  }

  /** An envelope is acknowledged at most once, and by the relay that claimed it last. */
  lemma AcknowledgedOnceByLatestClaimant(events: seq<Event>, i: nat, j: nat)
    ensures var w := Run(START, events);
      && (i < |w.acknowledged| ==>
            LastClaim(w.claimLog, w.acknowledged[i].envelope.id) == Some(w.acknowledged[i].token))
      && (i < |w.acknowledged| && j < |w.acknowledged| && i != j ==>
            w.acknowledged[i].envelope.id != w.acknowledged[j].envelope.id)
  {
    RunsAreSound(events);
  }

  /** Two relays never hold unexpired claims on one envelope. */
  lemma UnexpiredClaimsAreDisjoint(events: seq<Event>, r: nat, s: nat, c: Claim, d: Claim)
    ensures var w := Run(START, events);
      r != s && c in Held(w, r).claims && d in Held(w, s).claims && c.envelope.id == d.envelope.id ==>
        w.now >= c.until || w.now >= d.until
  {
    RunsAreSound(events);
    var w := Run(START, events);
    if r != s && c in Held(w, r).claims && d in Held(w, s).claims && c.envelope.id == d.envelope.id {
      var i :| 0 <= i < |w.relays[r].claims| && w.relays[r].claims[i] == c;
      var j :| 0 <= j < |w.relays[s].claims| && w.relays[s].claims[j] == d;
      assert RelaySound(w, w.relays[r]) && RelaySound(w, w.relays[s]);
      assert ClaimSound(w, w.relays[r].claims[i]) && ClaimSound(w, w.relays[s].claims[j]);
      assert NoSharedToken(w.relays[r].claims, w.relays[s].claims);
      assert w.relays[r].claims[i].token != w.relays[s].claims[j].token;
    }
  }

  // ----- nothing is lost

  lemma {:induction false} RunAppends(w: World, a: seq<Event>, b: seq<Event>)
    ensures Run(w, a + b) == Run(Run(w, a), b)
  {
    if b == [] {
      assert a + b == a;
    } else {
      RunAppends(w, a, b[..|b| - 1]);
      assert (a + b)[..|a + b| - 1] == a + b[..|b| - 1];
    }
  }

  /** An appended envelope is never changed or removed, and what is delivered stays delivered at the same instant. */
  lemma {:induction false} AppendedIsKept(w: World, events: seq<Event>, id: string)
    requires id in w.rows
    ensures var after := Run(w, events);
      && id in after.rows
      && after.rows[id].envelope == w.rows[id].envelope
      && (Delivered(w, id) ==> after.rows[id] == w.rows[id])
  {
    if events != [] {
      var before := Run(w, events[..|events| - 1]);
      AppendedIsKept(w, events[..|events| - 1], id);
      StepKeepsRow(before, events[|events| - 1], id);
    }
  }

  lemma StepKeepsRow(w: World, e: Event, id: string)
    requires id in w.rows
    ensures var after := Step(w, e);
      && id in after.rows
      && after.rows[id].envelope == w.rows[id].envelope
      && (Delivered(w, id) ==> after.rows[id] == w.rows[id])
  {
    if e.ClaimBatch? && Step(w, e) != w {
      SelectedAreEligible(w, e.limit, e.locked, e.order);
    }
    hide ReturnsSelection, Claimed, PublishJob;
  }

  /** Waiting long enough makes every undelivered row eligible again, whatever relays hold or held it. */
  lemma EligibleInTime(w: World, id: string) returns (milliseconds: nat)
    requires id in w.rows && !Delivered(w, id)
    ensures id in Candidates(w.rows, Step(w, Tick(milliseconds)).now, {})
  {
    var row := w.rows[id];
    milliseconds := (if row.availableAt > w.now then row.availableAt - w.now else 0)
      + (if row.claimedUntil.Some? && row.claimedUntil.value > w.now then row.claimedUntil.value - w.now else 0);
  }

  const RELAY := 0

  /** The relay has just claimed this envelope and nothing else. */
  ghost predicate Claims(w: World, e: Envelope) {
    var held := Held(w, RELAY);
    |held.claims| == 1 && held.claims[0].envelope == e && w.now < held.claims[0].until && !held.published
  }

  lemma FirstCandidate(w: World) returns (first: string)
    requires Candidates(w.rows, w.now, {}) != {}
    ensures first in Candidates(w.rows, w.now, {}) && ReturnsSelection(w, 1, {}, [first])
  {
    var candidates := Candidates(w.rows, w.now, {});
    SelectionMeaning(w.rows, candidates, 1);
    assert |candidates| >= 1;
    first := Selection(w.rows, candidates, 1)[0];
    assert Selection(w.rows, candidates, 1) == [first];
  }

  /** A claim of one row, by a relay that is idle, takes the first candidate. */
  lemma ClaimFirst(w: World) returns (first: string, claim: Event)
    requires Sound(w) && Held(w, RELAY) == IDLE && Candidates(w.rows, w.now, {}) != {}
    ensures first in Candidates(w.rows, w.now, {})
    ensures var after := Step(w, claim);
      && Sound(after) && after.now == w.now
      && Claims(after, w.rows[first].envelope)
      && after.rows == ClaimRows(w.rows, {first}, w.serial, w.now + 1)
  {
    first := FirstCandidate(w);
    claim := ClaimBatch(RELAY, 1, 1, {}, [first]);
    EveryStepKeepsSound(w, claim);
    StepIsClaiming(w, first);
    hide Step, Candidates, Sound, ClaimRows;
    assert Members([first]) == {first};
  }

  lemma StepIsClaiming(w: World, first: string)
    requires Held(w, RELAY) == IDLE && ReturnsSelection(w, 1, {}, [first]) && first in w.rows
    ensures Step(w, ClaimBatch(RELAY, 1, 1, {}, [first])) == Claiming(w, RELAY, w.now + 1, [first])
  {
    hide ReturnsSelection, Claiming, PublishJob, AcknowledgeRow, AppendRow;
  }

  lemma AfterCrash(w: World)
    ensures var after := Step(w, Crash(RELAY));
      after.rows == w.rows && after.now == w.now && Held(after, RELAY) == IDLE
  {
  }

  lemma SurvivorStays(w: World, after: World, first: string, id: string)
    requires id in Candidates(w.rows, w.now, {}) && id != first
    requires after.now == w.now && after.rows == ClaimRows(w.rows, {first}, w.serial, w.now + 1)
    ensures id in Candidates(after.rows, after.now, {}) && after.rows[id] == w.rows[id]
  {
  }

  /** One relay that claims a single row at a time reaches every eligible row. */
  lemma ReachClaim(w: World, id: string) returns (events: seq<Event>)
    requires Sound(w) && Held(w, RELAY) == IDLE && id in Candidates(w.rows, w.now, {})
    ensures Sound(Run(w, events)) && Claims(Run(w, events), w.rows[id].envelope)
    decreases |Candidates(w.rows, w.now, {})|
  {
    var first, claim := ClaimFirst(w);
    hide Sound, Claims, Candidates, Step, Run, Held, ClaimRows;
    if first == id {
      OneEvent(w, claim);
      events := [claim];
    } else {
      var claimed := Step(w, claim);
      var idle := Step(claimed, Crash(RELAY));
      EveryStepKeepsSound(claimed, Crash(RELAY));
      AfterCrash(claimed);
      SurvivorStays(w, idle, first, id);
      OneFewer(w, idle, first);
      var rest := ReachClaim(idle, id);
      TwoEvents(w, claim, Crash(RELAY));
      RunAppends(w, [claim, Crash(RELAY)], rest);
      events := [claim, Crash(RELAY)] + rest;
    }
  }

  lemma OneEvent(w: World, e: Event)
    ensures Run(w, [e]) == Step(w, e)
  {
    assert [e][..0] == [];
    assert Run(w, []) == w;
  }

  lemma OneFewer(w: World, after: World, first: string)
    requires first in Candidates(w.rows, w.now, {})
    requires after.now == w.now && after.rows == ClaimRows(w.rows, {first}, w.serial, w.now + 1)
    ensures Candidates(after.rows, after.now, {}) == Candidates(w.rows, w.now, {}) - {first}
    ensures |Candidates(after.rows, after.now, {})| < |Candidates(w.rows, w.now, {})|
  {
    assert Candidates(after.rows, after.now, {}) == Candidates(w.rows, w.now, {}) - {first};
    assert |Candidates(w.rows, w.now, {}) - {first}| == |Candidates(w.rows, w.now, {})| - 1;
  }

  /** From every state some continuation delivers the envelope, for instance one that claims rows singly. */
  lemma DeliverableFromAnywhere(w: World, id: string) returns (events: seq<Event>)
    requires Sound(w) && id in w.rows && !Delivered(w, id) && IsUuid(id)
    ensures Delivered(Run(w, events), id)
  {
    assert RowSound(w, id, w.rows[id]);
    hide Sound, Claims, Candidates;
    var idle := Step(w, Crash(RELAY));
    EveryStepKeepsSound(w, Crash(RELAY));
    var wait := EligibleInTime(idle, id);
    var waited := Step(idle, Tick(wait));
    EveryStepKeepsSound(idle, Tick(wait));
    var reach := ReachClaim(waited, id);
    var claimed := Run(waited, reach);
    AppendedIsKept(waited, reach, id);
    DeliveredByHolder(claimed, id);
    events := [Crash(RELAY), Tick(wait)] + reach + [Publish(RELAY), Acknowledge(RELAY, 0)];
    RunAppends(w, [Crash(RELAY), Tick(wait)] + reach, [Publish(RELAY), Acknowledge(RELAY, 0)]);
    RunAppends(w, [Crash(RELAY), Tick(wait)], reach);
    TwoEvents(w, Crash(RELAY), Tick(wait));
  }

  lemma TwoEvents(w: World, d: Event, e: Event)
    ensures Run(w, [d, e]) == Step(Step(w, d), e)
  {
    OneEvent(w, d);
    assert [d, e][..1] == [d];
  }

  /** The claim is the one on its row, which is not delivered. */
  predicate Current(w: World, c: Claim) {
    && c.envelope.id in w.rows
    && w.rows[c.envelope.id].envelope == c.envelope
    && w.rows[c.envelope.id].claimToken == Some(c.token)
    && w.rows[c.envelope.id].deliveredAt.None?
  }

  function DeliveredRow(row: Row, deliveredAt: int): Row {
    row.(deliveredAt := Some(deliveredAt), claimToken := None, claimedUntil := None)
  }

  /** A current claim whose id is a UUID is delivered. */
  lemma DeliveredFirst(w: World, r: nat, deliveredAt: int)
    requires Held(w, r).claims != [] && !Held(w, r).published
    requires IsUuid(Held(w, r).claims[0].envelope.id) && Current(w, Held(w, r).claims[0])
    ensures var after, id := Run(w, [Publish(r), Acknowledge(r, deliveredAt)]), Held(w, r).claims[0].envelope.id;
      && after.rows == w.rows[id := DeliveredRow(w.rows[id], deliveredAt)] && after.now == w.now
      && after.relays == w.relays[r := Relay(Held(w, r).claims[1..], false)]
  {
    TwoEvents(w, Publish(r), Acknowledge(r, deliveredAt));
    hide IsUuid, AppendRow, ReturnsSelection;
    var published := Step(w, Publish(r));
    assert published.rows == w.rows && published.now == w.now;
    assert published.relays == w.relays[r := Held(w, r).(published := true)];
  }

  lemma DeliveredByHolder(w: World, id: string)
    requires Sound(w) && id in w.rows && IsUuid(id) && Claims(w, w.rows[id].envelope)
    ensures Delivered(Run(w, [Publish(RELAY), Acknowledge(RELAY, 0)]), id)
  {
    HolderIsCurrent(w, id);
    hide Sound, Run, IsUuid;
    DeliveredFirst(w, RELAY, 0);
  }

  lemma HolderIsCurrent(w: World, id: string)
    requires Sound(w) && id in w.rows && Claims(w, w.rows[id].envelope)
    ensures w.rows[id].envelope.id == id && Current(w, Held(w, RELAY).claims[0])
  {
    assert RowSound(w, id, w.rows[id]);
    assert RelaySound(w, Held(w, RELAY)) && ClaimSound(w, Held(w, RELAY).claims[0]);
  }

  /** Exactly the envelopes with UUID ids can still be delivered; one with another id never is, on any continuation. */
  lemma DeliverableIffUuid(events: seq<Event>, id: string)
    requires id in Run(START, events).rows && !Delivered(Run(START, events), id)
    ensures (exists more :: Delivered(Run(Run(START, events), more), id)) <==> IsUuid(id)
  {
    RunsAreSound(events);
    var w := Run(START, events);
    if IsUuid(id) {
      assert RowSound(w, id, w.rows[id]);
      var more := DeliverableFromAnywhere(w, id);
      assert Delivered(Run(w, more), id);
    } else {
      forall more ensures !Delivered(Run(w, more), id) {
        RunAppends(START, events, more);
        DeliveredIsEnqueued(events + more, id);
      }
    }
  }
}
