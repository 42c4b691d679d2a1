/** What is in the outbox and what a claim takes, told from the history of a run. */
module OutboxClaims {
  import opened OutboxGuarantees
  import opened OutboxRuns
  import opened OutboxStore
  import opened OutboxTurns
  import opened Wrappers

  // ----- what has been appended

  /** This event appends the envelope, and no earlier one appended its id. */
  predicate FirstAppendedAt(events: seq<Event>, i: nat, e: Envelope) {
    && i < |events| && events[i] == Append(e)
    && forall j | 0 <= j < i :: events[j].Append? ==> events[j].envelope.id != e.id
  }

  ghost predicate FirstAppended(events: seq<Event>, e: Envelope) {
    exists i: nat :: FirstAppendedAt(events, i, e)
  }

  /** The row of this envelope is in the table. */
  predicate Holds(rows: Rows, e: Envelope) {
    e.id in rows && rows[e.id].envelope == e
  }

  lemma FirstAppendedGrows(events: seq<Event>, last: Event, e: Envelope)
    ensures FirstAppended(events + [last], e) <==>
      || FirstAppended(events, e)
      || (last == Append(e) && forall j | 0 <= j < |events| :: events[j].Append? ==> events[j].envelope.id != e.id)
  {
    var all := events + [last];
    if i: nat :| FirstAppendedAt(all, i, e) {
      assert forall j | 0 <= j < |events| :: all[j] == events[j];
      assert i < |events| ==> FirstAppendedAt(events, i, e);
    }
    if i: nat :| FirstAppendedAt(events, i, e) {
      assert FirstAppendedAt(all, i, e);
    }
    if last == Append(e) && forall j | 0 <= j < |events| :: events[j].Append? ==> events[j].envelope.id != e.id {
      assert FirstAppendedAt(all, |events|, e);
    }
  }

  /** Only an append adds a row, and nothing changes the envelope of one. */
  lemma StepRows(w: World, e: Event, x: Envelope)
    ensures Holds(Step(w, e).rows, x) <==> Holds(w.rows, x) || (e == Append(x) && x.id !in w.rows)
    ensures forall id :: id in Step(w, e).rows <==> id in w.rows || (e.Append? && e.envelope.id == id)
  {
    hide ReturnsSelection, PublishJob, Claimed;
    if e.ClaimBatch? && Step(w, e) != w {
      SelectedAreEligible(w, e.limit, e.locked, e.order);
    }
  }

  predicate WasAppended(events: seq<Event>, id: string) {
    exists j | 0 <= j < |events| :: events[j].Append? && events[j].envelope.id == id
  }

  lemma WasAppendedGrows(events: seq<Event>, id: string)
    requires events != []
    ensures var front, last := events[..|events| - 1], events[|events| - 1];
      WasAppended(events, id) <==> WasAppended(front, id) || (last.Append? && last.envelope.id == id)
  {
    var front := events[..|events| - 1];
    assert forall j | 0 <= j < |front| :: front[j] == events[j];
    if j :| 0 <= j < |events| && events[j].Append? && events[j].envelope.id == id {
      assert j < |front| ==> front[j].Append? && front[j].envelope.id == id;
    }
  }

  lemma {:induction false} RowsWereAppended(events: seq<Event>, id: string)
    ensures id in Run(START, events).rows <==> WasAppended(events, id)
  {
    hide Step;
    if events != [] {
      var front, last := events[..|events| - 1], events[|events| - 1];
      RowsWereAppended(front, id);
      StepRows(Run(START, front), last, Envelope([], [], 0, []));
      WasAppendedGrows(events, id);
    }
  }

  /** After any run the outbox holds exactly the envelopes that were the first with their ids to be appended. */
  lemma {:induction false} RowsAreTheFirstAppended(events: seq<Event>, e: Envelope)
    ensures Holds(Run(START, events).rows, e) <==> FirstAppended(events, e)
    ensures forall id | id in Run(START, events).rows ::
      FirstAppended(events, Run(START, events).rows[id].envelope) && Run(START, events).rows[id].envelope.id == id
  {
    AppendedFirst(events, e);
    RunsAreSound(events);
    var w := Run(START, events);
    forall id | id in w.rows ensures FirstAppended(events, w.rows[id].envelope) && w.rows[id].envelope.id == id {
      assert RowSound(w, id, w.rows[id]);
      AppendedFirst(events, w.rows[id].envelope);
    }
  }

  lemma {:induction false} AppendedFirst(events: seq<Event>, e: Envelope)
    ensures Holds(Run(START, events).rows, e) <==> FirstAppended(events, e)
  {
    hide Step, Holds, FirstAppendedAt;
    if events == [] {
      NothingHeld(e);
    } else {
      var front, last := events[..|events| - 1], events[|events| - 1];
      AppendedFirst(front, e);
      StepRows(Run(START, front), last, e);
      RowsWereAppended(front, e.id);
      assert events == front + [last];
      FirstAppendedGrows(front, last, e);
    }
  }

  lemma NothingHeld(e: Envelope)
    ensures !Holds(Run(START, []).rows, e) && !FirstAppended([], e)
  {
  }

  // ----- what the claims of the past say about a row

  /** Undelivered, due, and under no claim whose lease still runs. */
  predicate Claimable(w: World, id: string) {
    && id in w.rows && !Delivered(w, id) && w.rows[id].envelope.occurredAt <= w.now
    && forall i | 0 <= i < |w.claimLog| && w.claimLog[i].envelope.id == id :: w.claimLog[i].until <= w.now
  }

  /** Until its lease ends or its row is delivered, a claim gives the row the end of its lease. */
  predicate Stands(w: World, c: Claim) {
    && c.token < w.serial && c.envelope.id in w.rows
    && (|| Delivered(w, c.envelope.id)
        || c.until <= w.now
        || w.rows[c.envelope.id].claimedUntil == Some(c.until))
  }

  /** The end of a row's lease was given by a claim. */
  predicate WasGiven(w: World, id: string)
    requires id in w.rows
  {
    exists i | 0 <= i < |w.claimLog| ::
      w.claimLog[i].envelope.id == id && w.rows[id].claimedUntil == Some(w.claimLog[i].until)
  }

  predicate LogStands(w: World) {
    && (forall i | 0 <= i < |w.claimLog| :: Stands(w, w.claimLog[i]))
    && (forall id | id in w.rows && !Delivered(w, id) && w.rows[id].claimedUntil.Some? :: WasGiven(w, id))
  }

  /** What claiming does to the log and to single rows. */
  lemma ClaimingOf(w: World, r: nat, until: int, order: seq<string>)
    requires RowsSound(w) && forall i | 0 <= i < |order| :: order[i] in w.rows
    ensures var after := Claiming(w, r, until, order);
      var batch := after.claimLog[|w.claimLog|..];
      && after.claimLog == w.claimLog + batch && |batch| == |order| && Held(after, r).claims == batch
      && after.now == w.now && after.jobs == w.jobs && after.serial == w.serial + 1
      && (forall i | 0 <= i < |order| ::
            batch[i] == Claim(w.serial, w.rows[order[i]].envelope, until) && batch[i].envelope.id == order[i])
      && after.rows.Keys == w.rows.Keys
      && (forall id | id in w.rows && id in order :: after.rows[id] == ClaimRow(w.rows[id], w.serial, until))
      && (forall id | id in w.rows && id !in order :: after.rows[id] == w.rows[id])
  {
    var after := Claiming(w, r, until, order);
    assert after.claimLog[|w.claimLog|..] == Claimed(w.rows, order, w.serial, until);
    forall i | 0 <= i < |order| ensures w.rows[order[i]].envelope.id == order[i] {
      assert RowSound(w, order[i], w.rows[order[i]]);
    }
    hide RowsSound;
    assert forall id :: id in order <==> id in Members(order);
  }

  lemma OldClaimStands(w: World, r: nat, until: int, order: seq<string>, c: Claim)
    requires RowsSound(w) && Stands(w, c)
    requires forall i | 0 <= i < |order| :: order[i] in w.rows && Eligible(w.rows[order[i]], w.now)
    ensures Stands(Claiming(w, r, until, order), c)
  {
    ClaimingOf(w, r, until, order);
    hide Claiming, RowsSound;
    var id := c.envelope.id;
    if id in order {
      var k :| 0 <= k < |order| && order[k] == id;
    }
  }

  lemma NewClaimStands(w: World, r: nat, until: int, order: seq<string>, i: nat)
    requires RowsSound(w) && forall i | 0 <= i < |order| :: order[i] in w.rows
    requires i < |order|
    ensures var after := Claiming(w, r, until, order);
      && |w.claimLog| + i < |after.claimLog|
      && Stands(after, after.claimLog[|w.claimLog| + i])
      && after.rows[order[i]].claimedUntil == Some(until)
      && WasGiven(after, order[i])
  {
    ClaimingOf(w, r, until, order);
    hide Claiming, RowsSound;
    var after := Claiming(w, r, until, order);
    assert after.claimLog[|w.claimLog| + i] == after.claimLog[|w.claimLog|..][i];
    assert order[i] in order;
  }

  lemma ClaimingKeepsLog(w: World, r: nat, until: int, order: seq<string>)
    requires Sound(w) && LogStands(w)
    requires forall i | 0 <= i < |order| :: order[i] in w.rows && Eligible(w.rows[order[i]], w.now)
    ensures LogStands(Claiming(w, r, until, order))
  {
    assert RowsSound(w);
    hide Sound, RowsSound, Claiming, Stands, Eligible, WasGiven;
    var after, n := Claiming(w, r, until, order), |w.claimLog|;
    ClaimingOf(w, r, until, order);
    forall i | 0 <= i < |after.claimLog| ensures Stands(after, after.claimLog[i]) {
      if i < n {
        assert after.claimLog[i] == w.claimLog[i];
        OldClaimStands(w, r, until, order, w.claimLog[i]);
      } else {
        NewClaimStands(w, r, until, order, i - n);
      }
    }
    forall id | id in after.rows && !Delivered(after, id) && after.rows[id].claimedUntil.Some?
      ensures WasGiven(after, id)
    {
      if id in order {
        var k :| 0 <= k < |order| && order[k] == id;
        NewClaimStands(w, r, until, order, k);
      } else {
        GivenBefore(w, after, id);
      }
    }
  }

  lemma GivenBefore(w: World, after: World, id: string)
    requires id in w.rows && WasGiven(w, id) && id in after.rows && after.rows[id] == w.rows[id]
    requires w.claimLog <= after.claimLog
    ensures WasGiven(after, id)
  {
    var i :| 0 <= i < |w.claimLog| && w.claimLog[i].envelope.id == id
      && w.rows[id].claimedUntil == Some(w.claimLog[i].until);
    assert after.claimLog[i] == w.claimLog[i];
  }

  /** What the other steps do to the log and to single rows. */
  lemma OtherSteps(w: World, e: Event)
    requires !e.ClaimBatch?
    ensures var after := Step(w, e);
      && after.claimLog == w.claimLog && after.serial == w.serial && after.now >= w.now
      && (forall id | id in w.rows ::
            id in after.rows && (after.rows[id] == w.rows[id] || Delivered(after, id)))
      && (forall id | id in after.rows && id !in w.rows :: after.rows[id].claimedUntil.None?)
  {
    hide PublishJob;
  }

  lemma OtherStepsKeepLog(w: World, e: Event)
    requires LogStands(w) && !e.ClaimBatch?
    ensures LogStands(Step(w, e))
  {
    hide Step;
    OtherSteps(w, e);
    var after := Step(w, e);
    forall i | 0 <= i < |w.claimLog| ensures Stands(after, w.claimLog[i]) {
      assert Stands(w, w.claimLog[i]);
    }
    forall id | id in after.rows && !Delivered(after, id) && after.rows[id].claimedUntil.Some?
      ensures WasGiven(after, id)
    {
      assert id in w.rows && after.rows[id] == w.rows[id] && WasGiven(w, id);
    }
  }

  lemma StepKeepsLog(w: World, e: Event)
    requires Sound(w) && LogStands(w)
    ensures LogStands(Step(w, e))
  {
    hide Sound, LogStands;
    if !e.ClaimBatch? {
      OtherStepsKeepLog(w, e);
    } else if Step(w, e) != w {
      SelectedAreEligible(w, e.limit, e.locked, e.order);
      ClaimingKeepsLog(w, e.relay, w.now + e.leaseMs, e.order);
    }
  }

  lemma {:induction false} LogsStand(events: seq<Event>)
    ensures Sound(Run(START, events)) && LogStands(Run(START, events))
  {
    hide Sound, Step;
    RunsAreSound(events);
    if events != [] {
      LogsStand(events[..|events| - 1]);
      StepKeepsLog(Run(START, events[..|events| - 1]), events[|events| - 1]);
    }
  }

  lemma EligibleIsClaimable(w: World, id: string)
    requires Sound(w) && LogStands(w)
    ensures id in w.rows && Eligible(w.rows[id], w.now) <==> Claimable(w, id)
  {
    if id in w.rows {
      assert RowSound(w, id, w.rows[id]);
      hide Sound;
      if w.rows[id].claimedUntil.Some? && !Delivered(w, id) {
        assert WasGiven(w, id);
      }
      assert forall i | 0 <= i < |w.claimLog| :: Stands(w, w.claimLog[i]);
    }
  }

  // ----- what a claim takes

  /**
   * The batch holds rows that can be claimed, each once and no more than the limit; a row that it passes over makes it
   * full, and comes after all of it.
   */
  ghost predicate TakesTheEarliest(w: World, limit: nat, locked: set<string>, batch: seq<string>) {
    && |batch| <= limit
    && (forall i | 0 <= i < |batch| :: Claimable(w, batch[i]) && batch[i] !in locked)
    && (forall i, j | 0 <= i < j < |batch| :: batch[i] != batch[j])
    && (forall id | Claimable(w, id) && id !in locked && id !in batch :: PassedOver(w, limit, batch, id))
  }

  predicate PassedOver(w: World, limit: nat, batch: seq<string>, id: string) {
    && |batch| == limit && id in w.rows
    && forall i | 0 <= i < |batch| :: batch[i] in w.rows && Precedes(w.rows[batch[i]].envelope, w.rows[id].envelope)
  }

  /** These are new claims on the rows, until the lease ends, with a token that no claim has had. */
  predicate AreNewClaims(w: World, until: int, batch: seq<string>, claims: seq<Claim>) {
    && |claims| == |batch|
    && (forall i | 0 <= i < |batch| ::
          && batch[i] in w.rows && claims[i].envelope == w.rows[batch[i]].envelope && claims[i].until == until)
    && (forall i, j | 0 <= i < |claims| && 0 <= j < |w.claimLog| :: claims[i].token != w.claimLog[j].token)
  }

  lemma BatchIsEarliest(w: World, limit: nat, locked: set<string>, order: seq<string>)
    requires Sound(w) && LogStands(w) && ReturnsSelection(w, limit, locked, order)
    ensures TakesTheEarliest(w, limit, locked, order)
  {
    var candidates := Candidates(w.rows, w.now, locked);
    var selected := Selection(w.rows, candidates, limit);
    SelectionMeaning(w.rows, candidates, limit);
    forall id ensures id in candidates <==> Claimable(w, id) && id !in locked {
      EligibleIsClaimable(w, id);
    }
    forall id ensures id in order <==> id in selected {
      assert id in Members(order) <==> id in Members(selected);
    }
    forall i, j | 0 <= i < j < |selected| ensures selected[i] != selected[j] {
      EarlierIsTotal(w.rows, selected[i], selected[j]);
    }
    AsMany(order, selected);
    forall id | id in w.rows ensures w.rows[id].envelope.id == id {
      assert RowSound(w, id, w.rows[id]);
    }
    hide Sound, LogStands, Claimable, Selection, Candidates;
    forall i | 0 <= i < |order| ensures Claimable(w, order[i]) && order[i] !in locked {
      assert order[i] in order && order[i] in selected;
    }
    forall id | Claimable(w, id) && id !in locked && id !in order ensures PassedOver(w, limit, order, id) {
      assert id in candidates && id !in selected;
      NotAllFit(candidates, selected, id);
      forall i | 0 <= i < |order|
        ensures order[i] in w.rows && Precedes(w.rows[order[i]].envelope, w.rows[id].envelope)
      {
        assert order[i] in order && order[i] in selected;
        var k :| 0 <= k < |selected| && selected[k] == order[i];
        assert Earlier(w.rows, selected[k], id);
      }
    }
  }

  lemma NotAllFit(all: set<string>, some: seq<string>, id: string)
    requires id in all && id !in some && forall i | 0 <= i < |some| :: some[i] in all
    ensures |some| != |all| || exists i, j :: 0 <= i < j < |some| && some[i] == some[j]
  {
    var members := set x | x in some;
    if forall i, j | 0 <= i < j < |some| :: some[i] != some[j] {
      SizeOfMembers(some);
      assert members <= all - {id};
      SubsetSize(members, all - {id});
    }
  }

  lemma SubsetSize(a: set<string>, b: set<string>)
    requires a <= b
    ensures |a| <= |b|
  {
    assert b == a + (b - a);
  }

  lemma {:induction false} SizeOfMembers(xs: seq<string>)
    requires forall i, j | 0 <= i < j < |xs| :: xs[i] != xs[j]
    ensures |Members(xs)| == |xs|
  {
    if xs != [] {
      var front, last := xs[..|xs| - 1], xs[|xs| - 1];
      SizeOfMembers(front);
      assert xs == front + [last];
      assert Members(xs) == Members(front) + {last};
    }
  }

  lemma AsMany(xs: seq<string>, ys: seq<string>)
    requires forall i, j | 0 <= i < j < |xs| :: xs[i] != xs[j]
    requires forall i, j | 0 <= i < j < |ys| :: ys[i] != ys[j]
    requires Members(xs) == Members(ys)
    ensures |xs| == |ys|
  {
    SizeOfMembers(xs);
    SizeOfMembers(ys);
  }

  lemma NewTokens(w: World, r: nat, until: int, order: seq<string>)
    requires Sound(w) && LogStands(w) && forall i | 0 <= i < |order| :: order[i] in w.rows
    ensures var after := Claiming(w, r, until, order);
      && AreNewClaims(w, until, order, Held(after, r).claims)
      && after.claimLog == w.claimLog + Held(after, r).claims
      && after.now == w.now && after.jobs == w.jobs
  {
    assert RowsSound(w);
    hide Sound, RowsSound, Claiming;
    ClaimingOf(w, r, until, order);
    assert forall j | 0 <= j < |w.claimLog| :: Stands(w, w.claimLog[j]);
  }

  lemma ClaimStep(w: World, r: nat, limit: int, leaseMs: int, locked: set<string>, order: seq<string>)
    requires Held(w, r).claims == [] && 1 <= limit <= 100 && leaseMs >= 1 && ReturnsSelection(w, limit, locked, order)
    requires forall i | 0 <= i < |order| :: order[i] in w.rows
    ensures Step(w, ClaimBatch(r, limit, leaseMs, locked, order)) == Claiming(w, r, w.now + leaseMs, order)
  {
    hide ReturnsSelection, Claiming, PublishJob, AcknowledgeRow, AppendRow;
  }

  /**
   * After any run, a claim by an idle relay takes the earliest of the rows that are due, undelivered and free of
   * running claims, and makes new claims on exactly these.
   */
  lemma ClaimTakesTheEarliest(
      events: seq<Event>, r: nat, limit: int, leaseMs: int, locked: set<string>, order: seq<string>)
    requires var w := Run(START, events);
      Held(w, r).claims == [] && 1 <= limit <= 100 && leaseMs >= 1 && ReturnsSelection(w, limit, locked, order)
    ensures var w := Run(START, events);
      var after := Step(w, ClaimBatch(r, limit, leaseMs, locked, order));
      && TakesTheEarliest(w, limit, locked, order)
      && AreNewClaims(w, w.now + leaseMs, order, Held(after, r).claims)
      && after.claimLog == w.claimLog + Held(after, r).claims
      && after.now == w.now && after.jobs == w.jobs
  {
    hide Sound, ReturnsSelection, Step, Run, TakesTheEarliest, AreNewClaims, LogStands, Eligible, Claiming;
    var w := Run(START, events);
    LogsStand(events);
    BatchIsEarliest(w, limit, locked, order);
    SelectedAreEligible(w, limit, locked, order);
    NewTokens(w, r, w.now + leaseMs, order);
    ClaimStep(w, r, limit, leaseMs, locked, order);
  }
}
