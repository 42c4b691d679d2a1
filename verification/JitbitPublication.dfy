/** Publishing analyses as Jitbit comments: by its marker each is found again and left out of the case. */
module JitbitPublication {
  import opened Characters
  import opened Selections
  import opened Substrings
  import opened Wrappers

  datatype Comment = Comment(id: string, body: Option<string>, isSystem: bool, date: string)

  const PREFIX := "<!-- caseweaver-publication:"
  const SUFFIX := " -->"

  predicate IsMarkerCharacter(c: char) {
    IsAlphanumeric(c) || c in "._:-"
  }

  /** `/^[A-Za-z0-9][A-Za-z0-9._:-]{0,511}$/` */
  predicate IsMarkerValue(m: string) {
    1 <= |m| <= 512 && IsAlphanumeric(m[0]) && forall i | 0 <= i < |m| :: IsMarkerCharacter(m[i])
  }

  /** `publicationMarker`, for values that it accepts. */
  function Marker(m: string): string {
    PREFIX + m + SUFFIX
  }

  predicate Carries(comment: Comment, m: string) {
    comment.body.Some? && Contains(comment.body.value, Marker(m))
  }

  /** `hasCaseWeaverPublicationMarker`: the marker of some value occurs. */
  ghost predicate HasMarker(body: Option<string>) {
    body.Some? && exists m: string :: IsMarkerValue(m) && Contains(body.value, Marker(m))
  }

  function PublishedBody(body: string, m: string): string {
    body + "\n\n" + Marker(m)
  }

  // ----- finding and publishing

  /**
   * The read fails; the post is lost before or after it is stored, which shows as a timeout or a network error; or it
   * fails with any other error, be the comment stored or not.
   */
  datatype Fault = Works | ReadFails | RequestLost | ResponseLost | PostRefused | PostStoredThenFailed

  /** `PostFailed` is the error of the post, thrown on. */
  datatype Reply = Published(commentId: string) | OutcomeUnknown | PostFailed | ReadFailed | InvalidMarker

  /** The first comment that carries the marker. */
  function Find(comments: seq<Comment>, m: string): (r: Option<Comment>)
    ensures r.Some? ==> r.value in comments && Carries(r.value, m)
    ensures r.None? ==> forall i | 0 <= i < |comments| :: !Carries(comments[i], m)
  {
    if comments == [] then None
    else if Carries(comments[0], m) then Some(comments[0])
    else Find(comments[1..], m)
  }

  /** `id` and `date` are what the service gives the new comment. There is one attempt to post it. */
  function Publish(comments: seq<Comment>, body: string, m: string, fault: Fault, id: string, date: string)
      : (seq<Comment>, Reply)
  {
    if !IsMarkerValue(m) then (comments, InvalidMarker)
    else if fault.ReadFails? then (comments, ReadFailed)
    else
      var existing := Find(comments, m);
      if existing.Some? then (comments, Published(existing.value.id))
      else
        var posted := comments + [Comment(id, Some(PublishedBody(body, m)), false, date)];
        match fault
        case RequestLost => (comments, OutcomeUnknown)
        case ResponseLost => (posted, OutcomeUnknown)
        case PostRefused => (comments, PostFailed)
        case PostStoredThenFailed => (posted, PostFailed)
        case _ => (posted, Published(id))
  }

  class JitbitAnalysisDestination {
    var comments: seq<Comment>

    constructor (comments: seq<Comment>)
      ensures this.comments == comments
    {
      this.comments := comments;
    }

    method FindPublication(m: string) returns (existing: Option<Comment>)
      ensures existing == Find(comments, m)
    {
      assert comments[0..] == comments;
      for i := 0 to |comments|
        invariant Find(comments, m) == Find(comments[i..], m)
      {
        assert comments[i..][1..] == comments[i + 1..];
        if Carries(comments[i], m) {
          return Some(comments[i]);
        }
      }
      return None;
    }

    method PublishComment(body: string, m: string, fault: Fault, id: string, date: string) returns (reply: Reply)
      modifies this
      ensures (comments, reply) == Publish(old(comments), body, m, fault, id, date)
    {
      if !IsMarkerValue(m) {
        return InvalidMarker;
      }
      if fault.ReadFails? {
        return ReadFailed;
      }
      var existing := FindPublication(m);
      if existing.Some? {
        return Published(existing.value.id);
      }
      if !fault.RequestLost? && !fault.PostRefused? {
        comments := comments + [Comment(id, Some(PublishedBody(body, m)), false, date)];
      }
      if fault.Works? {
        return Published(id);
      }
      return if fault.RequestLost? || fault.ResponseLost? then OutcomeUnknown else PostFailed;
    }
  }

  // ----- runs on one ticket

  /** A publication, or a comment that somebody else adds. */
  datatype Event =
    | Publication(body: string, marker: string, fault: Fault, id: string, date: string)
    | Foreign(comment: Comment)

  /** `posted` records the marker of every comment that the destination has stored. */
  datatype World = World(comments: seq<Comment>, posted: seq<string>)

  function Step(w: World, e: Event): World {
    match e
    case Foreign(comment) => w.(comments := w.comments + [comment])
    case Publication(body, m, fault, id, date) =>
      var (comments, _) := Publish(w.comments, body, m, fault, id, date);
      World(comments, if |comments| > |w.comments| then w.posted + [m] else w.posted)
  }

  function Run(w: World, events: seq<Event>): World {
    if events == [] then w else Step(Run(w, events[..|events| - 1]), events[|events| - 1])
  }

  ghost predicate Sound(w: World) {
    && (forall i | 0 <= i < |w.posted| :: Find(w.comments, w.posted[i]).Some?)
    && (forall i, j | 0 <= i < j < |w.posted| :: w.posted[i] != w.posted[j])
  }

  lemma {:induction false} FindGrows(comments: seq<Comment>, added: Comment, m: string)
    ensures Find(comments, m).Some? ==> Find(comments + [added], m) == Find(comments, m)
    ensures Find(comments, m).None? ==> Find(comments + [added], m) == if Carries(added, m) then Some(added) else None
  {
    if comments == [] {
      assert [] + [added] == [added] && [added][1..] == [];
    } else {
      assert (comments + [added])[1..] == comments[1..] + [added];
      FindGrows(comments[1..], added, m);
    }
  }

  lemma PublishedCarries(body: string, m: string)
    ensures Contains(PublishedBody(body, m), Marker(m))
  {
    var s := PublishedBody(body, m);
    assert s[|body| + 2..] == Marker(m);
    assert Marker(m) <= s[|body| + 2..];
  }

  lemma StepKeepsSound(w: World, e: Event)
    requires Sound(w)
    ensures Sound(Step(w, e))
  {
    var after := Step(w, e);
    if |after.comments| > |w.comments| {
      var added := after.comments[|w.comments|];
      assert after.comments == w.comments + [added];
      forall i | 0 <= i < |w.posted| ensures Find(after.comments, w.posted[i]).Some? {
        FindGrows(w.comments, added, w.posted[i]);
      }
      if e.Publication? {
        PublishedCarries(e.body, e.marker);
        FindGrows(w.comments, added, e.marker);
      }
      hide Find, Carries;
    }
  }

  /**
   * Over every run, whatever requests or responses are lost and whatever the bodies contain, the destination stores at
   * most one comment per marker.
   */
  lemma {:induction false} OneCommentPerMarker(comments: seq<Comment>, events: seq<Event>, i: nat, j: nat)
    ensures var w := Run(World(comments, []), events);
      && Sound(w)
      && (i < |w.posted| && j < |w.posted| && w.posted[i] == w.posted[j] ==> i == j)
  {
    if events != [] {
      OneCommentPerMarker(comments, events[..|events| - 1], i, j);
      StepKeepsSound(Run(World(comments, []), events[..|events| - 1]), events[|events| - 1]);
    }
  }

  // ----- what a publication leaves

  /** The comment of this place is the first that carries the marker. */
  predicate IsFirstCarrier(comments: seq<Comment>, k: nat, m: string) {
    k < |comments| && Carries(comments[k], m) && forall i | 0 <= i < k :: !Carries(comments[i], m)
  }

  lemma {:induction false} FindIsKept(w: World, events: seq<Event>, m: string)
    requires Find(w.comments, m).Some?
    ensures Find(Run(w, events).comments, m) == Find(w.comments, m)
  {
    hide Find, Carries;
    if events != [] {
      var before, e := Run(w, events[..|events| - 1]), events[|events| - 1];
      FindIsKept(w, events[..|events| - 1], m);
      var after := Step(before, e).comments;
      StepAddsAtMostOne(before, e);
      if after != before.comments {
        FindGrows(before.comments, after[|before.comments|], m);
      }
    }
  }

  lemma StepAddsAtMostOne(w: World, e: Event)
    ensures var after := Step(w, e).comments;
      after == w.comments || (|after| == |w.comments| + 1 && after == w.comments + [after[|w.comments|]])
  {
    hide Find;
  }

  /**
   * A marker that no comment carries: the body with its marker is posted, once, unless the comments cannot be read or
   * the request is lost or refused. The outcome is unknown exactly when request or response is lost.
   */
  lemma FreshPublication(comments: seq<Comment>, body: string, m: string, fault: Fault, id: string, date: string)
    requires IsMarkerValue(m) && forall i | 0 <= i < |comments| :: !Carries(comments[i], m)
    ensures var (after, reply) := Publish(comments, body, m, fault, id, date);
      && (after == comments
          <==> fault.ReadFails? || fault.RequestLost? || fault.PostRefused?)
      && (after == comments + [Comment(id, Some(body + "\n\n<!-- caseweaver-publication:" + m + " -->"), false, date)]
          <==> fault.Works? || fault.ResponseLost? || fault.PostStoredThenFailed?)
      && (reply == Published(id) <==> fault.Works?)
      && (reply.OutcomeUnknown? <==> fault.RequestLost? || fault.ResponseLost?)
      && (reply.PostFailed? <==> fault.PostRefused? || fault.PostStoredThenFailed?)
  {
    hide IsMarkerValue, Carries;
    var published := Comment(id, Some(PublishedBody(body, m)), false, date);
    assert PublishedBody(body, m) == body + "\n\n<!-- caseweaver-publication:" + m + " -->";
    assert |comments + [published]| == |comments| + 1;
  }

  /**
   * Once a publication has succeeded, every later one with its marker that can read the comments names the same comment
   * and changes nothing, whatever it is asked to publish and whatever has happened since. That comment is the first
   * that carries the marker.
   */
  lemma PublishedForGood(
      comments: seq<Comment>, body: string, m: string, id: string, date: string, posted: seq<string>,
      events: seq<Event>, again: Event)
    requires IsMarkerValue(m) && again.Publication? && again.marker == m && !again.fault.ReadFails?
    ensures var (after, reply) := Publish(comments, body, m, Works, id, date);
      var later := Run(World(after, posted), events).comments;
      && reply.Published?
      && (exists k: nat :: IsFirstCarrier(after, k, m) && after[k].id == reply.commentId)
      && Publish(later, again.body, m, again.fault, again.id, again.date) == (later, reply)
  {
    hide IsMarkerValue, Carries, Run;
    var (after, reply) := Publish(comments, body, m, Works, id, date);
    PublishedCarries(body, m);
    var added := Comment(id, Some(PublishedBody(body, m)), false, date);
    assert Carries(added, m) by { CarriesIsContains(added, m); }
    FindGrows(comments, added, m);
    assert Find(after, m).Some? && reply == Published(Find(after, m).value.id);
    var k := FirstCarrier(after, m);
    FindIsKept(World(after, posted), events, m);
  }

  lemma CarriesIsContains(comment: Comment, m: string)
    ensures Carries(comment, m) <==> comment.body.Some? && Contains(comment.body.value, Marker(m))
  {
  }

  lemma {:induction false} FirstCarrier(comments: seq<Comment>, m: string) returns (k: nat)
    requires Find(comments, m).Some?
    ensures IsFirstCarrier(comments, k, m) && Find(comments, m) == Some(comments[k])
  {
    hide Carries;
    if Carries(comments[0], m) {
      k := 0;
    } else {
      var j := FirstCarrier(comments[1..], m);
      k := j + 1;
      assert forall i | 0 < i < k :: comments[i] == comments[1..][i - 1];
    }
  }

  // ----- a marker finds its own comment

  lemma OccurrenceAt(s: string, part: string, i: nat, k: nat)
    requires ContainsAt(s, part, i) && k < |part|
    ensures s[i + k] == part[k]
  {
    assert s[i + k] == s[i..i + |part|][k];
  }

  /** The only angle bracket is the first character, and the first space after the value ends it. */
  lemma MarkerCharacters(n: string)
    requires IsMarkerValue(n)
    ensures forall k | 0 < k < |Marker(n)| :: Marker(n)[k] != '<'
    ensures forall k | |PREFIX| <= k < |PREFIX| + |n| :: Marker(n)[k] == n[k - |PREFIX|] != ' '
    ensures Marker(n)[|PREFIX| + |n|] == ' '
  {
    var whole, p := Marker(n), |PREFIX|;
    assert forall k | 0 < k < p :: PREFIX[k] != '<' && whole[k] == PREFIX[k];
    forall k | p <= k < p + |n| ensures whole[k] == n[k - p] && whole[k] != ' ' && whole[k] != '<' {
      assert IsMarkerCharacter(n[k - p]);
    }
    assert forall k | 0 <= k < |SUFFIX| :: whole[p + |n| + k] == SUFFIX[k] != '<';
  }

  /** Within one marker only the marker itself occurs. */
  lemma MarkerInMarker(m: string, n: string, i: nat)
    requires IsMarkerValue(m) && IsMarkerValue(n) && ContainsAt(Marker(n), Marker(m), i)
    ensures m == n
  {
    var whole, part, p := Marker(n), Marker(m), |PREFIX|;
    MarkerCharacters(m);
    MarkerCharacters(n);
    OccurrenceAt(whole, part, i, 0);
    assert part[0] == '<' && i == 0;
    OccurrenceAt(whole, part, 0, p + |m|);
    assert |m| == |n|;
    forall k | 0 <= k < |m| ensures m[k] == n[k] {
      OccurrenceAt(whole, part, 0, p + k);
      assert whole[p + k] == n[k] && part[p + k] == m[k];
    }
  }

  lemma MarkerHasNoNewline(m: string)
    requires IsMarkerValue(m)
    ensures '\n' !in Marker(m)
  {
    assert forall i | 0 <= i < |m| :: IsMarkerCharacter(m[i]);
  }

  lemma OccurrenceAvoids(s: string, part: string, i: nat, at: nat)
    requires ContainsAt(s, part, i) && '\n' !in part && at < |s| && s[at] == '\n'
    ensures !(i <= at < i + |part|)
  {
    forall k | i <= k < i + |part| ensures s[k] != '\n' {
      OccurrenceAt(s, part, i, k - i);
    }
  }

  lemma CarriedMarker(body: string, n: string, m: string, i: nat)
    requires IsMarkerValue(m) && IsMarkerValue(n) && ContainsAt(PublishedBody(body, n), Marker(m), i)
    ensures m == n || Contains(body, Marker(m))
  {
    var s, part := PublishedBody(body, n), Marker(m);
    assert s == [] + body + ("\n\n" + Marker(n)) == (body + "\n\n") + Marker(n) + [];
    MarkerHasNoNewline(m);
    assert s[|body|] == '\n' && s[|body| + 1] == '\n' && |part| > 0;
    OccurrenceAvoids(s, part, i, |body|);
    OccurrenceAvoids(s, part, i, |body| + 1);
    hide IsMarkerValue, Marker, Contains;
    if i + |part| <= |body| {
      Shifted([], body, "\n\n" + Marker(n), part, i);
      ContainsIsAt(body, part, i);
    } else {
      Shifted(body + "\n\n", Marker(n), [], part, i - |body| - 2);
      MarkerInMarker(m, n, i - |body| - 2);
    }
  }

  /** A published comment carries its own marker, and another one exactly when the body did. */
  lemma CarriesExactly(body: string, n: string, m: string)
    requires IsMarkerValue(m) && IsMarkerValue(n)
    ensures Contains(PublishedBody(body, n), Marker(m)) <==> m == n || Contains(body, Marker(m))
  {
    PublishedCarries(body, n);
    hide IsMarkerValue, Marker, Contains;
    if Contains(PublishedBody(body, n), Marker(m)) {
      var i := ContainedAt(PublishedBody(body, n), Marker(m));
      CarriedMarker(body, n, m, i);
    }
    if Contains(body, Marker(m)) {
      Widened([], body, "\n\n" + Marker(n), Marker(m));
      assert PublishedBody(body, n) == [] + body + ("\n\n" + Marker(n));
    }
  }

  /** No body that is published and no comment of others contains the text of any marker. */
  ghost predicate FreeOfMarkers(e: Event) {
    match e
    case Publication(body, _, _, _, _) => !HasMarker(Some(body))
    case Foreign(comment) => !HasMarker(comment.body)
  }

  /**
   * For bodies free of marker text, a publication is found exactly when its marker has been posted, and what is found
   * carries that marker and no other.
   */
  lemma {:induction false} FindsOwnComment(comments: seq<Comment>, events: seq<Event>, m: string)
    requires IsMarkerValue(m) && forall i | 0 <= i < |comments| :: !HasMarker(comments[i].body)
    requires forall i | 0 <= i < |events| :: FreeOfMarkers(events[i])
    ensures var w := Run(World(comments, []), events);
      && (Find(w.comments, m).Some? <==> m in w.posted)
      && (Find(w.comments, m).Some? ==> OwnComment(Find(w.comments, m).value, m))
  {
    if events == [] {
      assert forall i | 0 <= i < |comments| :: !Carries(comments[i], m);
    } else {
      var w, e := Run(World(comments, []), events[..|events| - 1]), events[|events| - 1];
      FindsOwnComment(comments, events[..|events| - 1], m);
      assert FreeOfMarkers(e);
      OwnCommentStep(w, e, m);
    }
  }

  /** The comment carries this marker and no other. */
  ghost predicate OwnComment(comment: Comment, m: string) {
    forall n: string | IsMarkerValue(n) :: Carries(comment, n) <==> n == m
  }

  lemma OwnCommentStep(w: World, e: Event, m: string)
    requires IsMarkerValue(m) && FreeOfMarkers(e)
    requires Find(w.comments, m).Some? <==> m in w.posted
    requires Find(w.comments, m).Some? ==> OwnComment(Find(w.comments, m).value, m)
    ensures var after := Step(w, e);
      && (Find(after.comments, m).Some? <==> m in after.posted)
      && (Find(after.comments, m).Some? ==> OwnComment(Find(after.comments, m).value, m))
  {
    hide IsMarkerValue, Find, Marker, Contains;
    match e
    case Foreign(comment) =>
      assert !Carries(comment, m);
      FindGrows(w.comments, comment, m);
    case Publication(body, n, fault, id, date) =>
      PublicationStep(w, e);
      if Step(w, e) != w {
        var added := Comment(id, Some(PublishedBody(body, n)), false, date);
        hide Step, PublishedBody;
        FindGrows(w.comments, added, m);
        forall k: string | IsMarkerValue(k) ensures Carries(added, k) <==> k == n {
          CarriesExactly(body, n, k);
        }
      }
  }

  /** A publication changes nothing or stores its own comment, under a marker that no comment carried. */
  lemma PublicationStep(w: World, e: Event)
    requires e.Publication?
    ensures Step(w, e) == w
      || (&& IsMarkerValue(e.marker) && Find(w.comments, e.marker).None?
          && Step(w, e) == World(w.comments + [Comment(e.id, Some(PublishedBody(e.body, e.marker)), false, e.date)],
                                 w.posted + [e.marker]))
  {
    hide IsMarkerValue, Find, PublishedBody;
  }

  // ----- published comments are no part of the case

  /** `sortedContentComments`: comments of people and without markers, in an order that depends on them alone. */
  ghost function ContentComments(comments: seq<Comment>, sorted: seq<Comment> -> seq<Comment>): seq<Comment> {
    sorted(WithoutMarkers(comments))
  }

  ghost function WithoutMarkers(comments: seq<Comment>): seq<Comment> {
    if comments == [] then []
    else
      var last := comments[|comments| - 1];
      WithoutMarkers(comments[..|comments| - 1]) + (if last.isSystem || HasMarker(last.body) then [] else [last])
  }

  /** The comment at this index, when a person wrote it and it carries no marker. */
  ghost function ContentAt(comments: seq<Comment>, i: nat): Option<Comment> {
    if i < |comments| && !comments[i].isSystem && !HasMarker(comments[i].body) then Some(comments[i]) else None
  }

  lemma {:induction false} ContentIsSelected(comments: seq<Comment>, n: nat)
    requires n <= |comments|
    ensures Selected(n, (i: nat) => ContentAt(comments, i)) == WithoutMarkers(comments[..n])
  {
    hide HasMarker;
    if n > 0 {
      ContentIsSelected(comments, n - 1);
      assert comments[..n][..n - 1] == comments[..n - 1];
    }
  }

  /** The comments of a case are those of people that carry no marker: each once, in order, and no other. */
  lemma ContentIsUnmarked(comments: seq<Comment>)
    ensures Selects(|comments|, (i: nat) => ContentAt(comments, i), WithoutMarkers(comments))
  {
    hide ContentAt, WithoutMarkers;
    ContentIsSelected(comments, |comments|);
    assert comments[..|comments|] == comments;
    SelectedMeaning(|comments|, (i: nat) => ContentAt(comments, i));
  }

  /** `mapNormalizedCase` uses the comments only through their content comments. */
  ghost function NormalizedCase<T, C>(
      fields: (T, seq<Comment>) -> C, ticket: T, comments: seq<Comment>, sorted: seq<Comment> -> seq<Comment>): C
  {
    fields(ticket, ContentComments(comments, sorted))
  }

  /** The comments that others add during a run. */
  function ForeignComments(events: seq<Event>): seq<Comment> {
    if events == [] then []
    else
      var last := events[|events| - 1];
      ForeignComments(events[..|events| - 1]) + (if last.Foreign? then [last.comment] else [])
  }

  lemma WithoutMarkersAdded(comments: seq<Comment>, added: Comment)
    ensures WithoutMarkers(comments + [added])
      == WithoutMarkers(comments) + (if added.isSystem || HasMarker(added.body) then [] else [added])
  {
    assert (comments + [added])[..|comments|] == comments;
  }

  lemma PublicationLeftOut(w: World, e: Event)
    requires e.Publication?
    ensures WithoutMarkers(Step(w, e).comments) == WithoutMarkers(w.comments)
  {
    var after := Step(w, e).comments;
    if |after| > |w.comments| {
      var added := after[|w.comments|];
      assert after == w.comments + [added];
      WithoutMarkersAdded(w.comments, added);
      PublishedCarries(e.body, e.marker);
      assert HasMarker(added.body);
      hide WithoutMarkers;
    }
  }

  lemma {:induction false} PublishedAreLeftOut(comments: seq<Comment>, events: seq<Event>)
    ensures WithoutMarkers(Run(World(comments, []), events).comments)
         == WithoutMarkers(comments + ForeignComments(events))
  {
    if events == [] {
      assert comments + [] == comments;
    } else {
      var front, e := events[..|events| - 1], events[|events| - 1];
      var before, others := Run(World(comments, []), front), comments + ForeignComments(front);
      PublishedAreLeftOut(comments, front);
      if e.Publication? {
        PublicationLeftOut(before, e);
        assert comments + ForeignComments(events) == others;
      } else {
        assert comments + ForeignComments(events) == others + [e.comment];
        WithoutMarkersAdded(others, e.comment);
        WithoutMarkersAdded(before.comments, e.comment);
      }
      hide WithoutMarkers, Publish;
    }
  }

  /**
   * Publishing never changes the normalized case: after any run it is that of the same ticket on which only the others
   * have commented.
   */
  lemma PublishingKeepsCase<T, C>(
      fields: (T, seq<Comment>) -> C, ticket: T, comments: seq<Comment>, sorted: seq<Comment> -> seq<Comment>,
      events: seq<Event>)
    ensures NormalizedCase(fields, ticket, Run(World(comments, []), events).comments, sorted)
      == NormalizedCase(fields, ticket, comments + ForeignComments(events), sorted)
  {
    PublishedAreLeftOut(comments, events);
  }
}
