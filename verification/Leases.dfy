/** Resource leases with fencing tokens: one row for each leased resource, deleted when its work completes. */
module Leases {
  import opened Wrappers

  datatype Resource = Resource(workspaceId: string, resourceType: string, resourceKey: string)

  datatype Lease = Lease(fencingToken: nat, expiresAt: int)

  type Table = map<Resource, Lease>

  /** The upsert: insert with token 1, or take over an expired row with the next token; else nothing. */
  function AcquireRow(table: Table, resource: Resource, leaseMs: int, now: int): (Table, Option<Lease>) {
    if resource in table && table[resource].expiresAt > now then (table, None)
    else
      var lease := Lease(if resource in table then table[resource].fencingToken + 1 else 1, now + leaseMs);
      (table[resource := lease], Some(lease))
  }

  function CompleteRow(table: Table, resource: Resource, fencingToken: int): (Table, bool) {
    if resource in table && table[resource].fencingToken == fencingToken then (table - {resource}, true)
    else (table, false)
  }

  class PostgresResourceLeaseStore {
    var table: Table

    constructor ()
      ensures table == map[]
    {
      table := map[];
    }

    /** `Err` is the refusal of a duration that is not positive. */
    method Acquire(resource: Resource, leaseMs: int, now: int) returns (lease: Result<Option<Lease>, ()>)
      modifies this
      ensures lease.Err? <==> leaseMs < 1
      ensures lease.Err? ==> table == old(table)
      ensures lease.Ok? ==> (table, lease.value) == AcquireRow(old(table), resource, leaseMs, now)
    {
      if leaseMs < 1 {
        return Err(());
      }
      if resource !in table {
        table := table[resource := Lease(1, now + leaseMs)];
      } else if table[resource].expiresAt <= now {
        table := table[resource := Lease(table[resource].fencingToken + 1, now + leaseMs)];
      } else {
        return Ok(None);
      }
      return Ok(Some(table[resource]));
    }

    method Complete(resource: Resource, fencingToken: int) returns (completed: bool)
      modifies this
      ensures (table, completed) == CompleteRow(old(table), resource, fencingToken)
    {
      if resource in table && table[resource].fencingToken == fencingToken {
        table := table - {resource};
        return true;
      }
      return false;
    }
  }

  // ----- runs

  /** What happened: an acquisition that succeeded, or a completion that did. */
  datatype Entry =
    | Acquired(resource: Resource, lease: Lease, at: int)
    | Completed(resource: Resource, token: int)

  datatype World = World(table: Table, now: int, history: seq<Entry>)

  datatype Event =
    | Tick(milliseconds: nat)
    | Acquire(resource: Resource, leaseMs: int)
    | Complete(resource: Resource, token: int)

  function Step(w: World, e: Event): World {
    match e
    case Tick(milliseconds) => w.(now := w.now + milliseconds)
    case Acquire(resource, leaseMs) =>
      if leaseMs < 1 then w
      else
        var (table, lease) := AcquireRow(w.table, resource, leaseMs, w.now);
        if lease.None? then w
        else World(table, w.now, w.history + [Acquired(resource, lease.value, w.now)])
    case Complete(resource, token) =>
      var (table, completed) := CompleteRow(w.table, resource, token);
      if completed then World(table, w.now, w.history + [Completed(resource, token)]) else w
  }

  function Run(w: World, events: seq<Event>): World {
    if events == [] then w else Step(Run(w, events[..|events| - 1]), events[|events| - 1])
  }

  const START := World(map[], 0, [])

  /** The acquisitions of a resource since it was last completed. */
  function Current(history: seq<Entry>, resource: Resource): seq<Entry> {
    if history == [] then []
    else
      var front, last := history[..|history| - 1], history[|history| - 1];
      if last.resource != resource then Current(front, resource)
      else if last.Completed? then []
      else Current(front, resource) + [last]
  }

  /** Tokens count from one, and each acquisition waited for the lease before it to end. */
  predicate Fenced(entries: seq<Entry>) {
    && (forall i | 0 <= i < |entries| :: entries[i].Acquired? && entries[i].lease.fencingToken == i + 1)
    && (forall i, j | 0 <= i < j < |entries| ::
          entries[i].lease.expiresAt <= entries[j].at && entries[i].lease.expiresAt < entries[j].lease.expiresAt)
  }

  /** The row is the last acquisition since the last completion; there is none when there was none. */
  ghost predicate Sound(w: World) {
    forall resource :: ResourceSound(w, resource)
  }

  ghost predicate ResourceSound(w: World, resource: Resource) {
    var current := Current(w.history, resource);
    && Fenced(current)
    && (resource in w.table <==> current != [])
    && (current != [] ==> w.table[resource] == current[|current| - 1].lease)
  }

  lemma CurrentAfter(history: seq<Entry>, entry: Entry, resource: Resource)
    ensures Current(history + [entry], resource)
      == if entry.resource != resource then Current(history, resource)
         else if entry.Completed? then [] else Current(history, resource) + [entry]
  {
    assert (history + [entry])[..|history|] == history;
  }

  lemma FencedGrows(entries: seq<Entry>, resource: Resource, until: int, at: int)
    requires Fenced(entries) && at < until
    requires entries != [] ==> entries[|entries| - 1].lease.expiresAt <= at
    ensures Fenced(entries + [Acquired(resource, Lease(|entries| + 1, until), at)])
  {
  }

  lemma AcquireKeepsSound(w: World, e: Event, resource: Resource)
    requires ResourceSound(w, resource) && e.Acquire? && e.leaseMs >= 1
    ensures ResourceSound(Step(w, e), resource)
  {
    hide Current, Fenced;
    var current, lease := Current(w.history, resource), AcquireRow(w.table, e.resource, e.leaseMs, w.now).1;
    if lease.Some? {
      if e.resource == resource {
        NextToken(w, resource);
        FencedGrows(current, resource, w.now + e.leaseMs, w.now);
        TakenOver(w, e, resource);
      } else {
        AcquiredElsewhere(w, e, resource);
      }
    }
  }

  lemma NextToken(w: World, resource: Resource)
    requires ResourceSound(w, resource)
    ensures var current := Current(w.history, resource);
      resource in w.table ==> w.table[resource].fencingToken == |current| && current != []
                              && w.table[resource].expiresAt == current[|current| - 1].lease.expiresAt
  {
    hide Current;
  }

  lemma AcquiredElsewhere(w: World, e: Event, resource: Resource)
    requires ResourceSound(w, resource) && e.Acquire? && e.leaseMs >= 1 && e.resource != resource
    ensures ResourceSound(Step(w, e), resource)
  {
    hide Current, Fenced;
    var lease := AcquireRow(w.table, e.resource, e.leaseMs, w.now).1;
    if lease.Some? {
      CurrentAfter(w.history, Acquired(e.resource, lease.value, w.now), resource);
    }
  }

  lemma TakenOver(w: World, e: Event, resource: Resource)
    requires e.Acquire? && e.resource == resource && e.leaseMs >= 1
    requires AcquireRow(w.table, resource, e.leaseMs, w.now).1.Some?
    requires var entry := AcquireRow(w.table, resource, e.leaseMs, w.now).1.value;
      Fenced(Current(w.history, resource) + [Acquired(resource, entry, w.now)])
    ensures ResourceSound(Step(w, e), resource)
  {
    var lease := AcquireRow(w.table, resource, e.leaseMs, w.now).1;
    CurrentAfter(w.history, Acquired(resource, lease.value, w.now), resource);
    hide Current, Fenced;
  }

  lemma CompleteKeepsSound(w: World, e: Event, resource: Resource)
    requires ResourceSound(w, resource) && e.Complete?
    ensures ResourceSound(Step(w, e), resource)
  {
    CurrentAfter(w.history, Completed(e.resource, e.token), resource);
    hide Current;
  }

  lemma StepKeepsSound(w: World, e: Event)
    requires Sound(w)
    ensures Sound(Step(w, e))
  {
    forall resource ensures ResourceSound(Step(w, e), resource) {
      assert ResourceSound(w, resource);
      if e.Complete? {
        CompleteKeepsSound(w, e, resource);
      } else if e.Acquire? && e.leaseMs >= 1 {
        AcquireKeepsSound(w, e, resource);
      }
    }
  }

  lemma {:induction false} RunsAreSound(events: seq<Event>)
    ensures Sound(Run(START, events))
  {
    if events != [] {
      RunsAreSound(events[..|events| - 1]);
      StepKeepsSound(Run(START, events[..|events| - 1]), events[|events| - 1]);
    } else {
      assert forall resource :: ResourceSound(START, resource);
    }
  }

  /**
   * The fencing token is the number of acquisitions since the last completion, so it grows by one with each, and
   * an acquisition succeeds exactly when every earlier lease since then has ended.
   */
  lemma AcquireFences(events: seq<Event>, resource: Resource, leaseMs: int)
    requires leaseMs >= 1
    ensures var w := Run(START, events);
      var current, lease := Current(w.history, resource), AcquireRow(w.table, resource, leaseMs, w.now).1;
      && Fenced(current)
      && (lease.Some? <==> forall i | 0 <= i < |current| :: current[i].lease.expiresAt <= w.now)
      && (lease.Some? ==> lease.value == Lease(|current| + 1, w.now + leaseMs))
  {
    RunsAreSound(events);
    var w := Run(START, events);
    assert ResourceSound(w, resource);
    hide Run, Current, Sound, ResourceSound, Fenced, AcquireRow;
    AcquireFromSound(w, resource, leaseMs);
  }

  lemma AcquireFromSound(w: World, resource: Resource, leaseMs: int)
    requires ResourceSound(w, resource)
    ensures var current, lease := Current(w.history, resource), AcquireRow(w.table, resource, leaseMs, w.now).1;
      && Fenced(current)
      && (lease.Some? <==> forall i | 0 <= i < |current| :: current[i].lease.expiresAt <= w.now)
      && (lease.Some? ==> lease.value == Lease(|current| + 1, w.now + leaseMs))
  {
    hide Current;
    var current := Current(w.history, resource);
    NextToken(w, resource);
    if current != [] {
      var last := current[|current| - 1];
      assert forall i | 0 <= i < |current| :: current[i].lease.expiresAt <= last.lease.expiresAt;
    }
  }

  /** A completion succeeds exactly with the token of the last acquisition since the last completion. */
  lemma CompleteFences(events: seq<Event>, resource: Resource, token: int)
    ensures var w := Run(START, events);
      var current := Current(w.history, resource);
      && (CompleteRow(w.table, resource, token).1 <==> current != [] && token == |current|)
      && (!CompleteRow(w.table, resource, token).1 ==> CompleteRow(w.table, resource, token).0 == w.table)
      && (CompleteRow(w.table, resource, token).1 ==> resource !in CompleteRow(w.table, resource, token).0)
  {
    RunsAreSound(events);
    assert ResourceSound(Run(START, events), resource);
  }

  /** Until the next completion, a token that has been superseded completes nothing, whatever happens meanwhile. */
  lemma {:induction false} SupersededNeverCompletes(w: World, events: seq<Event>, resource: Resource, token: int)
    requires resource in w.table && token < w.table[resource].fencingToken
    requires forall i | 0 <= i < |events| :: !CompletesAt(w, events, i, resource)
    ensures resource in Run(w, events).table && token < Run(w, events).table[resource].fencingToken
    ensures CompleteRow(Run(w, events).table, resource, token) == (Run(w, events).table, false)
  {
    if events != [] {
      var last := |events| - 1;
      forall i | 0 <= i < last ensures !CompletesAt(w, events[..last], i, resource) {
        assert events[..last][..i] == events[..i];
        assert !CompletesAt(w, events, i, resource);
      }
      SupersededNeverCompletes(w, events[..last], resource, token);
      assert !CompletesAt(w, events, last, resource);
    }
  }

  /** The event at `i` of this run completes the resource. */
  predicate CompletesAt(w: World, events: seq<Event>, i: nat, resource: Resource)
    requires i < |events|
  {
    var e := events[i];
    e.Complete? && e.resource == resource && CompleteRow(Run(w, events[..i]).table, resource, e.token).1
  }

  /**
   * Across completions tokens repeat: a holder whose lease has expired, and was taken over and completed by another,
   * completes the lease of a third that is still running.
   */
  lemma StaleHolderCompletesLaterLease(resource: Resource)
    ensures var stale := Acquired(resource, Lease(1, 10), 0);
      var running := Acquired(resource, Lease(1, 110), 100);
      var w := Run(START, StaleRun(resource));
      && w.history == [stale, Acquired(resource, Lease(2, 110), 100), Completed(resource, 2), running]
      && w.now < running.lease.expiresAt
      && CompleteRow(w.table, resource, stale.lease.fencingToken).1
  {
    var events := StaleRun(resource);
    var first, second := Acquired(resource, Lease(1, 10), 0), Acquired(resource, Lease(2, 110), 100);
    var w1 := World(map[resource := Lease(1, 10)], 0, [first]);
    var w3 := World(map[resource := Lease(2, 110)], 100, [first, second]);
    var w4 := World(map[], 100, [first, second, Completed(resource, 2)]);
    RunPrefix(events, 0);
    assert Run(START, events[..1]) == w1;
    RunPrefix(events, 1);
    assert Run(START, events[..2]) == w1.(now := 100);
    RunPrefix(events, 2);
    assert Run(START, events[..3]) == w3;
    RunPrefix(events, 3);
    assert Run(START, events[..4]) == w4;
    RunPrefix(events, 4);
    assert events[..5] == events;
  }

  function StaleRun(resource: Resource): seq<Event> {
    [Acquire(resource, 10), Tick(100), Acquire(resource, 10), Complete(resource, 2), Acquire(resource, 10)]
  }

  lemma RunPrefix(events: seq<Event>, n: nat)
    requires n < |events|
    ensures Run(START, events[..n + 1]) == Step(Run(START, events[..n]), events[n])
  {
    assert events[..n + 1][..n] == events[..n];
  }
}
