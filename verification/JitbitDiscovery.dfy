/** Discovery of Jitbit tickets: pages by offset, a cursor with an overlap, and the windows of successive runs. */
module JitbitDiscovery {
  import opened JsNumbers
  import opened Selections
  import opened Wrappers

  datatype Summary = Summary(issueId: string, fingerprint: string, status: Option<string>)

  datatype Event = Upsert(externalId: string, fingerprint: string)

  /** A date is the number of its day. */
  datatype Cursor = Cursor(updatedFrom: Option<int>, offset: nat)

  datatype Page = Page(events: seq<Event>, nextCursor: Cursor, complete: bool)

  const MAXIMUM_PAGE_SIZE := 300

  datatype Settings = Settings(initialUpdatedFrom: Option<int>, updatedFromOverlapDays: nat, discoveryPageSize: int)

  /** The overlap is subtracted from a cursor that starts a run, and from no other. */
  function ParseCursor(cursor: Option<Cursor>, settings: Settings): Cursor {
    match cursor
    case None => Cursor(settings.initialUpdatedFrom, 0)
    case Some(Cursor(updatedFrom, offset)) =>
      if offset == 0 && updatedFrom.Some? then Cursor(Some(updatedFrom.value - settings.updatedFromOverlapDays), 0)
      else cursor.value
  }

  /** What the remote service returns of a list. */
  function Fetch(list: seq<Summary>, offset: nat, count: nat): (r: seq<Summary>)
    ensures |r| <= count && (|r| == count > 0 ==> offset + count <= |list|)
  {
    if offset >= |list| then [] else list[offset..Min(offset + count, |list|)]
  }

  function Events(eligible: Summary -> bool, summaries: seq<Summary>): seq<Event> {
    if summaries == [] then []
    else
      var last := summaries[|summaries| - 1];
      Events(eligible, summaries[..|summaries| - 1])
        + (if eligible(last) then [Upsert(last.issueId, last.fingerprint)] else [])
  }

  /** What the generator yields from this state, over the list that the service has for its date. */
  function Pages(eligible: Summary -> bool, list: seq<Summary>, state: Cursor, size: nat, today: int): seq<Page>
    requires size >= 1
    decreases |list| - state.offset
  {
    var summaries := Fetch(list, state.offset, size);
    if |summaries| < size then [Page(Events(eligible, summaries), Cursor(Some(today), 0), true)]
    else
      var next := state.(offset := state.offset + |summaries|);
      [Page(Events(eligible, summaries), next, false)] + Pages(eligible, list, next, size, today)
  }

  /** `None` is the refusal of a page size. */
  method Discover(
      eligible: Summary -> bool, remote: Option<int> -> seq<Summary>, settings: Settings, cursor: Option<Cursor>,
      pageSize: Option<int>, today: int)
      returns (pages: Option<seq<Page>>)
    ensures var size := if pageSize.Some? then pageSize.value else settings.discoveryPageSize;
      var start := ParseCursor(cursor, settings);
      pages
      == if 1 <= size <= MAXIMUM_PAGE_SIZE then Some(Pages(eligible, remote(start.updatedFrom), start, size, today))
               else None
  {
    hide Events, Fetch, ParseCursor;
    var size := if pageSize.Some? then pageSize.value else settings.discoveryPageSize;
    if !(1 <= size <= MAXIMUM_PAGE_SIZE) {
      return None;
    }
    var state := ParseCursor(cursor, settings);
    var yielded := YieldPages(eligible, remote, state, size, today);
    return Some(yielded);
  }

  /** The loop of the generator. */
  method YieldPages(
      eligible: Summary -> bool, remote: Option<int> -> seq<Summary>, start: Cursor, size: nat, today: int)
      returns (yielded: seq<Page>)
    requires size >= 1
    ensures yielded == Pages(eligible, remote(start.updatedFrom), start, size, today)
  {
    hide Events, Fetch, Pages;
    var state := start;
    ghost var list := remote(start.updatedFrom);
    ghost var all := Pages(eligible, list, start, size, today);
    ghost var left := all;
    yielded := [];
    assert yielded + left == all;
    while true
      invariant state.updatedFrom == start.updatedFrom
      invariant left == Pages(eligible, list, state, size, today) && yielded + left == all
      decreases |list| - state.offset
    {
      var summaries := Fetch(remote(state.updatedFrom), state.offset, size);
      var complete := |summaries| < size;
      var next := if complete then Cursor(Some(today), 0) else state.(offset := state.offset + |summaries|);
      var page := Page(Events(eligible, summaries), next, complete);
      FirstPage(eligible, list, state, size, today);
      assert left == [page] + left[1..] && yielded + left == yielded + [page] + left[1..];
      yielded := yielded + [page];
      if complete {
        assert left[1..] == [];
        return;
      }
      left := left[1..];
      state := state.(offset := state.offset + |summaries|);
    }
  }

  lemma FirstPage(eligible: Summary -> bool, list: seq<Summary>, state: Cursor, size: nat, today: int)
    requires size >= 1
    ensures var summaries := Fetch(list, state.offset, size);
      var complete, next := |summaries| < size, state.(offset := state.offset + |summaries|);
      Pages(eligible, list, state, size, today)
        == [Page(Events(eligible, summaries), if complete then Cursor(Some(today), 0) else next, complete)]
           + (if complete then [] else Pages(eligible, list, next, size, today))
  {
    hide Events, Fetch;
  }

  // ----- the pages of a run

  function EventsOf(pages: seq<Page>): seq<Event> {
    if pages == [] then [] else pages[0].events + EventsOf(pages[1..])
  }

  lemma {:induction false} EventsConcat(eligible: Summary -> bool, a: seq<Summary>, b: seq<Summary>)
    ensures Events(eligible, a + b) == Events(eligible, a) + Events(eligible, b)
  {
    if b == [] {
      assert a + b == a;
    } else {
      EventsConcat(eligible, a, b[..|b| - 1]);
      assert (a + b)[..|a + b| - 1] == a + b[..|b| - 1];
    }
  }

  /** What is left of a list. */
  function From(list: seq<Summary>, offset: nat): seq<Summary> {
    if offset >= |list| then [] else list[offset..]
  }

  lemma FetchThenRest(list: seq<Summary>, offset: nat, size: nat)
    ensures Fetch(list, offset, size) + From(list, offset + size) == From(list, offset)
    ensures |Fetch(list, offset, size)| < size ==> From(list, offset) == Fetch(list, offset, size)
  {
  }

  /** The only page of a rest that is shorter than a page. */
  lemma LastPage(eligible: Summary -> bool, list: seq<Summary>, state: Cursor, size: nat, today: int)
    requires size >= 1 && |Fetch(list, state.offset, size)| < size
    ensures var pages := Pages(eligible, list, state, size, today);
      && |pages| == 1 && pages[0].complete && pages[0].nextCursor == Cursor(Some(today), 0)
      && EventsOf(pages) == Events(eligible, From(list, state.offset))
  {
    hide Events, Fetch, From, EventsOf;
    var summaries := Fetch(list, state.offset, size);
    FetchThenRest(list, state.offset, size);
    var page := Page(Events(eligible, summaries), Cursor(Some(today), 0), true);
    OneEventPage(page);
  }

  lemma OneEventPage(page: Page)
    ensures EventsOf([page]) == page.events
  {
    assert [page][1..] == [];
  }

  /** A full first page and the pages after it. */
  lemma FullPage(eligible: Summary -> bool, list: seq<Summary>, state: Cursor, size: nat, today: int)
    requires size >= 1 && |Fetch(list, state.offset, size)| == size
    ensures var pages, next := Pages(eligible, list, state, size, today), state.(offset := state.offset + size);
      && state.offset < |list|
      && pages == [pages[0]] + Pages(eligible, list, next, size, today)
      && !pages[0].complete && pages[0].nextCursor == next
      && EventsOf(pages) == pages[0].events + EventsOf(Pages(eligible, list, next, size, today))
      && Events(eligible, From(list, state.offset)) == pages[0].events + Events(eligible, From(list, next.offset))
  {
    hide Events, Fetch, From, Pages, EventsOf;
    var summaries := Fetch(list, state.offset, size);
    FetchThenRest(list, state.offset, size);
    EventsConcat(eligible, summaries, From(list, state.offset + size));
    FirstPage(eligible, list, state, size, today);
    var next := state.(offset := state.offset + size);
    FirstEvents(Page(Events(eligible, summaries), next, false), Pages(eligible, list, next, size, today));
  }

  lemma FirstEvents(page: Page, rest: seq<Page>)
    ensures EventsOf([page] + rest) == page.events + EventsOf(rest)
  {
    assert ([page] + rest)[1..] == rest;
  }

  /** The pages concatenate to the eligible rest of the list. */
  lemma {:induction false} PagesConcatenate(
      eligible: Summary -> bool, list: seq<Summary>, state: Cursor, size: nat, today: int)
    requires size >= 1
    ensures EventsOf(Pages(eligible, list, state, size, today)) == Events(eligible, From(list, state.offset))
    decreases |list| - state.offset
  {
    hide Pages, Events, EventsOf, Fetch, From;
    if |Fetch(list, state.offset, size)| < size {
      LastPage(eligible, list, state, size, today);
    } else {
      FullPage(eligible, list, state, size, today);
      PagesConcatenate(eligible, list, state.(offset := state.offset + size), size, today);
    }
  }

  // ----- which events those are

  /** What the summary at this offset yields in a run that starts at `from`. */
  function EventAt(eligible: Summary -> bool, list: seq<Summary>, from: nat, offset: nat): Option<Event> {
    if from <= offset < |list| && eligible(list[offset])
    then Some(Upsert(list[offset].issueId, list[offset].fingerprint))
    else None
  }

  lemma RestGrows(list: seq<Summary>, from: nat, n: nat)
    requires 0 < n <= |list|
    ensures From(list[..n], from) == From(list[..n - 1], from) + (if from < n then [list[n - 1]] else [])
  {
  }

  lemma EventsGrow(eligible: Summary -> bool, list: seq<Summary>, from: nat, n: nat)
    requires 0 < n <= |list|
    ensures Events(eligible, From(list[..n], from))
      == Events(eligible, From(list[..n - 1], from)) + Listed(EventAt(eligible, list, from, n - 1))
  {
    hide From;
    RestGrows(list, from, n);
    var before, last := From(list[..n - 1], from), if from < n then [list[n - 1]] else [];
    assert from < n ==> (before + last)[..|before|] == before;
    assert from >= n ==> before + last == before;
  }

  lemma {:induction false} EventsAreSelected(eligible: Summary -> bool, list: seq<Summary>, from: nat, n: nat)
    requires n <= |list|
    ensures Selected(n, (offset: nat) => EventAt(eligible, list, from, offset))
      == Events(eligible, From(list[..n], from))
  {
    hide Events, Listed, EventAt;
    if n == 0 {
      NothingIsSelected(eligible, list, from);
    } else {
      EventsAreSelected(eligible, list, from, n - 1);
      EventsGrow(eligible, list, from, n);
    }
  }

  lemma NothingIsSelected(eligible: Summary -> bool, list: seq<Summary>, from: nat)
    ensures Selected(0, (offset: nat) => EventAt(eligible, list, from, offset)) == Events(eligible, From([], from))
  {
  }

  /**
   * All pages of a run together hold one event for each eligible summary from the offset on, with its issue and its
   * fingerprint, in the order of the list, and no other event.
   */
  lemma PagesHoldTheEligible(
      eligible: Summary -> bool, list: seq<Summary>, state: Cursor, size: nat, today: int)
    requires size >= 1
    ensures Selects(|list|, (offset: nat) => EventAt(eligible, list, state.offset, offset),
                    EventsOf(Pages(eligible, list, state, size, today)))
  {
    PagesConcatenate(eligible, list, state, size, today);
    EventsAreSelected(eligible, list, state.offset, |list|);
    assert list[..|list|] == list;
    SelectedMeaning(|list|, (offset: nat) => EventAt(eligible, list, state.offset, offset));
    hide Pages, Events, EventsOf;
  }

  // ----- one page after the other

  lemma EventsOfFirst(page: Page, rest: seq<Page>, k: nat, last: seq<Event>)
    requires k <= |rest|
    ensures EventsOf(([page] + rest)[..k + 1]) + last == page.events + (EventsOf(rest[..k]) + last)
  {
    var front := ([page] + rest)[..k + 1];
    assert front == [page] + rest[..k];
    assert front[1..] == rest[..k];
  }

  /**
   * Exactly the last page is complete; it starts the next run. The others carry on with the same date, each one page
   * size further.
   */
  lemma {:induction false} PagesCarryOn(
      eligible: Summary -> bool, list: seq<Summary>, state: Cursor, size: nat, today: int, k: nat)
    requires size >= 1
    ensures var pages := Pages(eligible, list, state, size, today);
      && pages != []
      && (k < |pages| ==>
            && (pages[k].complete <==> k == |pages| - 1)
            && (pages[k].complete ==> pages[k].nextCursor == Cursor(Some(today), 0))
            && (!pages[k].complete ==>
                  pages[k].nextCursor == Cursor(state.updatedFrom, state.offset + (k + 1) * size)))
    decreases |list| - state.offset
  {
    hide Pages, Events, EventsOf, From, Fetch;
    var pages := Pages(eligible, list, state, size, today);
    if |Fetch(list, state.offset, size)| < size {
      LastPage(eligible, list, state, size, today);
    } else {
      FullPage(eligible, list, state, size, today);
      var next := state.(offset := state.offset + size);
      var rest := Pages(eligible, list, next, size, today);
      PagesCarryOn(eligible, list, next, size, today, if k > 0 then k - 1 else 0);
      assert k > 0 ==> state.offset + (k + 1) * size == next.offset + k * size;
      assert 0 < k < |pages| ==> pages[k] == rest[k - 1];
    }
  }

  /** A page that is not complete is followed by others. */
  lemma MorePages(eligible: Summary -> bool, list: seq<Summary>, state: Cursor, size: nat, today: int, k: nat)
    requires size >= 1 && k < |Pages(eligible, list, state, size, today)|
    requires !Pages(eligible, list, state, size, today)[k].complete
    ensures var pages, next := Pages(eligible, list, state, size, today), state.(offset := state.offset + size);
      && state.offset < |list|
      && pages == [pages[0]] + Pages(eligible, list, next, size, today)
      && pages[0].nextCursor == next
      && Events(eligible, From(list, state.offset)) == pages[0].events + Events(eligible, From(list, next.offset))
  {
    hide Pages, Events, Fetch, From, EventsOf;
    if |Fetch(list, state.offset, size)| < size {
      LastPage(eligible, list, state, size, today);
    } else {
      FullPage(eligible, list, state, size, today);
    }
  }

  lemma {:induction false} PagesUntil(
      eligible: Summary -> bool, list: seq<Summary>, state: Cursor, size: nat, today: int, k: nat)
    requires size >= 1 && k < |Pages(eligible, list, state, size, today)|
    requires !Pages(eligible, list, state, size, today)[k].complete
    ensures var pages := Pages(eligible, list, state, size, today);
      EventsOf(pages[..k + 1]) + Events(eligible, From(list, pages[k].nextCursor.offset))
        == Events(eligible, From(list, state.offset))
    decreases |list| - state.offset
  {
    hide Pages, Events, Fetch, From, EventsOf;
    var pages := Pages(eligible, list, state, size, today);
    var next := state.(offset := state.offset + size);
    var rest := Pages(eligible, list, next, size, today);
    MorePages(eligible, list, state, size, today, k);
    var page, last := pages[0], Events(eligible, From(list, pages[k].nextCursor.offset));
    assert pages == [page] + rest;
    EventsOfFirst(page, rest, k, last);
    if k == 0 {
      NoEvents(rest, last);
    } else {
      PagesUntil(eligible, list, next, size, today, k - 1);
    }
  }

  lemma NoEvents(rest: seq<Page>, last: seq<Event>)
    ensures EventsOf(rest[..0]) + last == last
  {
  }

  /**
   * Stopping after any page and resuming from its cursor, with any page size, yields the rest and no event twice: the
   * overlap is not subtracted again.
   */
  lemma ResumeYieldsTheRest(
      eligible: Summary -> bool, remote: Option<int> -> seq<Summary>, settings: Settings, cursor: Option<Cursor>,
      size: nat, today: int, k: nat, resumedSize: nat, resumedToday: int)
    requires size >= 1 && resumedSize >= 1
    requires var start := ParseCursor(cursor, settings);
      var pages := Pages(eligible, remote(start.updatedFrom), start, size, today);
      k < |pages| && !pages[k].complete
    ensures var start := ParseCursor(cursor, settings);
      var pages := Pages(eligible, remote(start.updatedFrom), start, size, today);
      var resumed := ParseCursor(Some(pages[k].nextCursor), settings);
      && resumed == pages[k].nextCursor
      && EventsOf(pages[..k + 1])
           + EventsOf(Pages(eligible, remote(resumed.updatedFrom), resumed, resumedSize, resumedToday))
         == EventsOf(pages)
  {
    hide Pages, EventsOf, Events, From;
    var start := ParseCursor(cursor, settings);
    var list := remote(start.updatedFrom);
    PagesUntil(eligible, list, start, size, today, k);
    NextCursorGoesOn(eligible, list, start, size, today, k);
    PagesConcatenate(eligible, list, start, size, today);
    var resumed := Pages(eligible, list, start, size, today)[k].nextCursor;
    PagesConcatenate(eligible, list, resumed, resumedSize, resumedToday);
  }

  lemma NextCursorGoesOn(eligible: Summary -> bool, list: seq<Summary>, state: Cursor, size: nat, today: int, k: nat)
    requires size >= 1 && k < |Pages(eligible, list, state, size, today)|
    requires !Pages(eligible, list, state, size, today)[k].complete
    ensures var next := Pages(eligible, list, state, size, today)[k].nextCursor;
      next.updatedFrom == state.updatedFrom && next.offset > state.offset
  {
    hide Pages;
    PagesCarryOn(eligible, list, state, size, today, k);
    assert (k + 1) * size >= size;
  }

  // ----- the windows of successive runs

  const DAY := 24 * 60 * 60 * 1000

  /** Instants are milliseconds; this is the day of one. */
  function DayOf(instant: nat): nat {
    instant / DAY
  }

  /** A run reads the list when it starts, and leaves the day on which it ends as its watermark. */
  datatype Run = Run(start: nat, end: nat)

  /** The cursor from which run `k` starts. */
  function CursorBefore(runs: seq<Run>, k: nat): Option<Cursor>
    requires k <= |runs|
  {
    if k == 0 then None else Some(Cursor(Some(DayOf(runs[k - 1].end)), 0))
  }

  /** Whether run `k` sees an update made at this instant. */
  predicate Sees(settings: Settings, runs: seq<Run>, k: nat, update: nat)
    requires k < |runs|
  {
    var from := ParseCursor(CursorBefore(runs, k), settings).updatedFrom;
    update <= runs[k].start && (from.Some? ==> from.value * DAY <= update)
  }

  /** Runs follow each other. */
  predicate Sequential(runs: seq<Run>) {
    && (forall k | 0 <= k < |runs| :: runs[k].start <= runs[k].end)
    && (forall j, k | 0 <= j < k < |runs| :: runs[j].end <= runs[k].start)
  }

  /** The window of the next run reaches back to the start of this one. */
  predicate Overlaps(settings: Settings, runs: seq<Run>, k: nat)
    requires k + 1 < |runs|
  {
    runs[k].start == runs[k + 1].start
    || (DayOf(runs[k].end) - settings.updatedFromOverlapDays) * DAY <= runs[k].start + 1
  }

  predicate SeenBySome(settings: Settings, runs: seq<Run>, update: nat) {
    exists k | 0 <= k < |runs| :: Sees(settings, runs, k, update)
  }

  /** An update after the initial bound and no later than the last run. */
  predicate Due(settings: Settings, runs: seq<Run>, update: nat) {
    && runs != [] && update <= runs[|runs| - 1].start
    && (settings.initialUpdatedFrom.Some? ==> settings.initialUpdatedFrom.value * DAY <= update)
  }

  lemma {:induction false} StartedBefore(runs: seq<Run>, update: nat) returns (k: nat)
    requires runs != [] && update <= runs[|runs| - 1].start
    ensures k < |runs| && update <= runs[k].start && (k > 0 ==> runs[k - 1].start < update)
    decreases |runs|
  {
    if |runs| == 1 || runs[|runs| - 2].start < update {
      k := |runs| - 1;
    } else {
      k := StartedBefore(runs[..|runs| - 1], update);
    }
  }

  /** Every due update is seen by some run exactly when each run overlaps the next. */
  lemma EveryUpdateIsSeenIff(settings: Settings, runs: seq<Run>)
    requires Sequential(runs)
    requires runs != [] && settings.initialUpdatedFrom.Some? ==>
      settings.initialUpdatedFrom.value * DAY <= runs[0].start
    ensures (forall update: nat | Due(settings, runs, update) :: SeenBySome(settings, runs, update))
      <==> forall k: nat | k + 1 < |runs| :: Overlaps(settings, runs, k)
  {
    if forall k: nat | k + 1 < |runs| :: Overlaps(settings, runs, k) {
      forall update: nat | Due(settings, runs, update) ensures SeenBySome(settings, runs, update) {
        var k := StartedBefore(runs, update);
        if k > 0 {
          assert Overlaps(settings, runs, k - 1);
        }
        assert Sees(settings, runs, k, update);
      }
    }
    forall k: nat | k + 1 < |runs| && !Overlaps(settings, runs, k)
      ensures Due(settings, runs, runs[k].start + 1) && !SeenBySome(settings, runs, runs[k].start + 1)
    {
      MissedUpdate(settings, runs, k);
    }
  }

  /** Right after the start of a run that does not overlap the next, an update is missed for ever. */
  lemma MissedUpdate(settings: Settings, runs: seq<Run>, k: nat)
    requires Sequential(runs) && k + 1 < |runs| && !Overlaps(settings, runs, k)
    requires settings.initialUpdatedFrom.Some? ==> settings.initialUpdatedFrom.value * DAY <= runs[0].start
    ensures Due(settings, runs, runs[k].start + 1) && !SeenBySome(settings, runs, runs[k].start + 1)
  {
    var update := runs[k].start + 1;
    assert runs[k].start <= runs[k].end <= runs[k + 1].start <= runs[|runs| - 1].start;
    assert runs[0].start <= runs[k].start;
    forall j | 0 <= j < |runs| ensures !Sees(settings, runs, j, update) {
      if j > k {
        assert runs[k].end <= runs[j - 1].end;
        DaysGrow(runs[k].end, runs[j - 1].end, settings.updatedFromOverlapDays);
      } else {
        assert runs[j].start <= runs[k].start;
      }
    }
  }

  lemma DaysGrow(a: nat, b: nat, overlap: nat)
    requires a <= b
    ensures (DayOf(a) - overlap) * DAY <= (DayOf(b) - overlap) * DAY
  {
  }

  /** In particular when no run takes longer than the overlap. */
  lemma ShortRunsMissNothing(settings: Settings, runs: seq<Run>)
    requires forall k | 0 <= k < |runs| :: runs[k].end - runs[k].start <= settings.updatedFromOverlapDays * DAY
    ensures forall k: nat | k + 1 < |runs| :: Overlaps(settings, runs, k)
  {
    forall k: nat | k + 1 < |runs| ensures Overlaps(settings, runs, k) {
      assert DayOf(runs[k].end) * DAY <= runs[k].end;
      assert (DayOf(runs[k].end) - settings.updatedFromOverlapDays) * DAY
          == DayOf(runs[k].end) * DAY - settings.updatedFromOverlapDays * DAY;
    }
  }
}
