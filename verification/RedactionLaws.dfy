/** What redaction hides, where it reports a cycle, and that it copies acyclic values in full. */
module RedactionLaws {
  import opened LogRedaction
  import opened Wrappers

  // ----- nothing masked survives

  /** A slot without what the walk must not show. */
  function MaskSlot(slot: Slot): Slot {
    if slot.Data? then slot else Accessor
  }

  function MaskField(sensitive: string -> bool, f: Field): Field {
    if sensitive(f.key) || f.key == PROTOTYPE_KEY then Field(f.key, Accessor) else Field(f.key, MaskSlot(f.slot))
  }

  /** What is left of a node when errors, sensitive properties and accessors have lost their contents. */
  function MaskNode(sensitive: string -> bool, node: Node): Node {
    match node
    case ErrorNode(_) => ErrorNode([])
    case ArrayNode(slots) => ArrayNode(seq(|slots|, i requires 0 <= i < |slots| => MaskSlot(slots[i])))
    case ObjectNode(fields) =>
      ObjectNode(seq(|fields|, i requires 0 <= i < |fields| => MaskField(sensitive, fields[i])))
  }

  predicate Refers(slot: Slot, ids: set<nat>) {
    slot.Data? && slot.value.Reference? ==> slot.value.id in ids
  }

  predicate RefersWithin(node: Node, ids: set<nat>) {
    match node
    case ErrorNode(_) => true
    case ArrayNode(slots) => forall i | 0 <= i < |slots| :: Refers(slots[i], ids)
    case ObjectNode(fields) => forall i | 0 <= i < |fields| :: Refers(fields[i].slot, ids)
  }

  /**
   * Two heaps show the same on these objects: the objects agree once masked, and what they show refers to none but
   * these objects.
   */
  ghost predicate SameShown(sensitive: string -> bool, g: Heap, h: Heap, ids: set<nat>) {
    && ids <= g.Keys && ids <= h.Keys
    && forall id | id in ids ::
         MaskNode(sensitive, g[id]) == MaskNode(sensitive, h[id]) && RefersWithin(MaskNode(sensitive, g[id]), ids)
  }

  /**
   * What is logged depends on nothing that lies under a sensitive name, behind an accessor or in an error, nor on
   * objects that only those refer to.
   */
  lemma {:induction false} MaskedNeverSurvives(
      sensitive: string -> bool, g: Heap, h: Heap, ids: set<nat>, visited: set<nat>, v: Value)
    requires Closed(g) && Closed(h) && SameShown(sensitive, g, h, ids)
    requires v.Reference? ==> v.id in ids
    ensures Redact(sensitive, g, visited, v) == Redact(sensitive, h, visited, v)
    decreases Left(g, visited), 0
  {
    if v.Reference? && v.id !in visited {
      var a, b := g[v.id], h[v.id];
      assert MaskNode(sensitive, a) == MaskNode(sensitive, b) && RefersWithin(MaskNode(sensitive, a), ids);
      assert NodeKnown(g, a) && NodeKnown(h, b);
      FewerLeft(g, visited, v.id);
      if a.ArrayNode? {
        MaskedSlots(sensitive, ids, a.slots, b.slots);
        ShownSlots(sensitive, g, h, ids, visited + {v.id}, a.slots, b.slots);
      } else if a.ObjectNode? {
        MaskedFields(sensitive, ids, a.fields, b.fields);
        ShownFields(sensitive, g, h, ids, visited + {v.id}, a.fields, b.fields);
      }
      hide SameShown, MaskNode, RefersWithin, Closed, SlotPair, FieldPair;
    }
  }

  predicate SlotPair(ids: set<nat>, s: Slot, t: Slot) {
    MaskSlot(s) == MaskSlot(t) && Refers(MaskSlot(s), ids)
  }

  predicate FieldPair(sensitive: string -> bool, ids: set<nat>, e: Field, f: Field) {
    MaskField(sensitive, e) == MaskField(sensitive, f) && Refers(MaskField(sensitive, e).slot, ids)
  }

  lemma MaskedSlots(sensitive: string -> bool, ids: set<nat>, a: seq<Slot>, b: seq<Slot>)
    requires MaskNode(sensitive, ArrayNode(a)) == MaskNode(sensitive, ArrayNode(b))
    requires RefersWithin(MaskNode(sensitive, ArrayNode(a)), ids)
    ensures |a| == |b| && forall i | 0 <= i < |a| :: SlotPair(ids, a[i], b[i])
  {
    var shown := MaskNode(sensitive, ArrayNode(a)).slots;
    assert shown == MaskNode(sensitive, ArrayNode(b)).slots && |a| == |shown| == |b|;
    forall i | 0 <= i < |a| ensures SlotPair(ids, a[i], b[i]) {
      assert shown[i] == MaskSlot(a[i]) == MaskSlot(b[i]) && Refers(shown[i], ids);
    }
  }

  lemma MaskedFields(sensitive: string -> bool, ids: set<nat>, a: seq<Field>, b: seq<Field>)
    requires MaskNode(sensitive, ObjectNode(a)) == MaskNode(sensitive, ObjectNode(b))
    requires RefersWithin(MaskNode(sensitive, ObjectNode(a)), ids)
    ensures |a| == |b| && forall i | 0 <= i < |a| :: FieldPair(sensitive, ids, a[i], b[i])
  {
    var shown := MaskNode(sensitive, ObjectNode(a)).fields;
    assert shown == MaskNode(sensitive, ObjectNode(b)).fields && |a| == |shown| == |b|;
    forall i | 0 <= i < |a| ensures FieldPair(sensitive, ids, a[i], b[i]) {
      assert shown[i] == MaskField(sensitive, a[i]) == MaskField(sensitive, b[i]) && Refers(shown[i].slot, ids);
    }
  }

  lemma {:induction false} ShownSlots(
      sensitive: string -> bool, g: Heap, h: Heap, ids: set<nat>, visited: set<nat>, a: seq<Slot>, b: seq<Slot>)
    requires Closed(g) && Closed(h) && SameShown(sensitive, g, h, ids)
    requires forall i | 0 <= i < |a| :: SlotKnown(g, a[i])
    requires forall i | 0 <= i < |b| :: SlotKnown(h, b[i])
    requires |a| == |b| && forall i | 0 <= i < |a| :: SlotPair(ids, a[i], b[i])
    ensures RedactSlots(sensitive, g, visited, a) == RedactSlots(sensitive, h, visited, b)
    decreases Left(g, visited), 1 + |a|
  {
    hide Closed, SameShown;
    if a != [] {
      var last := |a| - 1;
      ShownSlots(sensitive, g, h, ids, visited, a[..last], b[..last]);
      assert SlotPair(ids, a[last], b[last]);
      if a[last].Data? {
        MaskedNeverSurvives(sensitive, g, h, ids, visited, a[last].value);
      }
    }
  }

  lemma {:induction false} ShownFields(
      sensitive: string -> bool, g: Heap, h: Heap, ids: set<nat>, visited: set<nat>, a: seq<Field>, b: seq<Field>)
    requires Closed(g) && Closed(h) && SameShown(sensitive, g, h, ids)
    requires forall i | 0 <= i < |a| :: SlotKnown(g, a[i].slot)
    requires forall i | 0 <= i < |b| :: SlotKnown(h, b[i].slot)
    requires |a| == |b| && forall i | 0 <= i < |a| :: FieldPair(sensitive, ids, a[i], b[i])
    ensures RedactFields(sensitive, g, visited, a) == RedactFields(sensitive, h, visited, b)
    decreases Left(g, visited), 1 + |a|
  {
    hide Closed, SameShown;
    if a != [] {
      var last := |a| - 1;
      ShownFields(sensitive, g, h, ids, visited, a[..last], b[..last]);
      assert FieldPair(sensitive, ids, a[last], b[last]);
      if MaskField(sensitive, a[last]).slot.Data? {
        MaskedNeverSurvives(sensitive, g, h, ids, visited, a[last].slot.value);
      }
    }
  }

  // ----- where a cycle is reported

  /** The values that a node shows, in the order in which they are logged; `None` is one that is masked. */
  function Shown(sensitive: string -> bool, node: Node): seq<Option<Value>> {
    match node
    case ErrorNode(_) => []
    case ArrayNode(slots) => ShownInSlots(slots)
    case ObjectNode(fields) => ShownInFields(sensitive, fields)
  }

  function ShownInSlot(slot: Slot): Option<Value> {
    if slot.Data? then Some(slot.value) else None
  }

  function ShownInSlots(slots: seq<Slot>): seq<Option<Value>> {
    seq(|slots|, i requires 0 <= i < |slots| => ShownInSlot(slots[i]))
  }

  function ShownInFields(sensitive: string -> bool, fields: seq<Field>): seq<Option<Value>> {
    if fields == [] then []
    else
      var last, front := fields[|fields| - 1], ShownInFields(sensitive, fields[..|fields| - 1]);
      if last.key == PROTOTYPE_KEY then front
      else front + [if sensitive(last.key) then None else ShownInSlot(last.slot)]
  }

  function Children(l: Logged): seq<Logged> {
    match l
    case Items(items) => items
    case Attributes(attributes) => seq(|attributes|, i requires 0 <= i < |attributes| => attributes[i].value)
    case _ => []
  }

  function RedactShown(sensitive: string -> bool, h: Heap, visited: set<nat>, shown: Option<Value>): Logged
    requires Closed(h) && (shown.Some? ==> Known(h, shown.value))
  {
    if shown.Some? then Redact(sensitive, h, visited, shown.value) else Redacted
  }

  lemma {:induction false} FieldChildren(sensitive: string -> bool, h: Heap, visited: set<nat>, fields: seq<Field>)
    requires Closed(h) && NodeKnown(h, ObjectNode(fields))
    ensures var shown, attributes := ShownInFields(sensitive, fields), RedactFields(sensitive, h, visited, fields);
      && |shown| == |attributes|
      && forall i | 0 <= i < |shown| ::
           && (shown[i].Some? ==> Known(h, shown[i].value))
           && attributes[i].value == RedactShown(sensitive, h, visited, shown[i])
  {
    if fields != [] {
      FieldChildren(sensitive, h, visited, fields[..|fields| - 1]);
      assert SlotKnown(h, fields[|fields| - 1].slot);
    }
  }

  lemma {:induction false} SlotChildren(sensitive: string -> bool, h: Heap, visited: set<nat>, slots: seq<Slot>)
    requires Closed(h) && NodeKnown(h, ArrayNode(slots))
    ensures var items := RedactSlots(sensitive, h, visited, slots);
      forall i | 0 <= i < |slots| ::
        && (slots[i].Data? ==> Known(h, slots[i].value))
        && items[i] == RedactShown(sensitive, h, visited, ShownInSlot(slots[i]))
  {
    if slots != [] {
      SlotChildren(sensitive, h, visited, slots[..|slots| - 1]);
      assert SlotKnown(h, slots[|slots| - 1]);
    }
  }

  /** A copied node has one child for each value shown, redacted with the node among the visited ones. */
  lemma NodeChildren(sensitive: string -> bool, h: Heap, visited: set<nat>, id: nat)
    requires Closed(h) && id in h && id !in visited
    ensures var shown, children := Shown(sensitive, h[id]), Children(Redact(sensitive, h, visited, Reference(id)));
      && |children| == |shown|
      && forall i | 0 <= i < |shown| ::
           && (shown[i].Some? ==> Known(h, shown[i].value))
           && children[i] == RedactShown(sensitive, h, visited + {id}, shown[i])
  {
    var node := h[id];
    assert NodeKnown(h, node);
    match node {
      case ErrorNode(_) =>
      case ArrayNode(slots) => SlotChildren(sensitive, h, visited + {id}, slots);
      case ObjectNode(fields) => FieldChildren(sensitive, h, visited + {id}, fields);
    }
  }

  /** The part of the log entry at a path of child positions. */
  function At(l: Logged, path: seq<nat>): Option<Logged>
    decreases |path|
  {
    if path == [] then Some(l)
    else if path[0] < |Children(l)| then At(Children(l)[path[0]], path[1..])
    else None
  }

  /** The value at a path through the heap itself, and the objects passed on the way to it. */
  function Follow(sensitive: string -> bool, h: Heap, v: Value, path: seq<nat>): Option<(seq<nat>, Value)>
    decreases |path|
  {
    if path == [] then Some(([], v))
    else if v.Reference? && v.id in h && path[0] < |Shown(sensitive, h[v.id])|
            && Shown(sensitive, h[v.id])[path[0]].Some? then
      var (chain, end) :- Follow(sensitive, h, Shown(sensitive, h[v.id])[path[0]].value, path[1..]);
      Some(([v.id] + chain, end))
    else None
  }

  predicate NoRepeats(chain: seq<nat>) {
    forall i, j | 0 <= i < j < |chain| :: chain[i] != chain[j]
  }

  /** The path leads through distinct objects back to one of them, or to one visited before. */
  predicate ClosesCycle(sensitive: string -> bool, h: Heap, visited: set<nat>, v: Value, path: seq<nat>) {
    var followed := Follow(sensitive, h, v, path);
    && followed.Some?
    && followed.value.1.Reference? && followed.value.1.id in h && !h[followed.value.1.id].ErrorNode?
    && NoRepeats(followed.value.0)
    && (forall i | 0 <= i < |followed.value.0| :: followed.value.0[i] !in visited)
    && (followed.value.1.id in followed.value.0 || followed.value.1.id in visited)
  }

  /** The marker stands at a path exactly when the path closes a cycle there and nowhere before. */
  lemma {:induction false} CircularExactlyAtAncestors(
      sensitive: string -> bool, h: Heap, visited: set<nat>, v: Value, path: seq<nat>)
    requires Closed(h) && Known(h, v)
    ensures At(Redact(sensitive, h, visited, v), path) == Some(Circular)
       <==> ClosesCycle(sensitive, h, visited, v, path)
    decreases |path|
  {
    if path != [] && v.Reference? {
      var id, node := v.id, h[v.id];
      var k, rest := path[0], path[1..];
      if node.ErrorNode? || id in visited {
        FollowPassesFirst(sensitive, h, v, path);
      } else {
        var shown := Shown(sensitive, node);
        NodeChildren(sensitive, h, visited, id);
        if k < |shown| && shown[k].Some? {
          CircularExactlyAtAncestors(sensitive, h, visited + {id}, shown[k].value, rest);
          CycleStep(sensitive, h, visited, id, path);
        }
      }
    }
  }

  lemma FollowPassesFirst(sensitive: string -> bool, h: Heap, v: Value, path: seq<nat>)
    requires path != [] && v.Reference? && v.id in h
    ensures var followed := Follow(sensitive, h, v, path);
      followed.Some? ==> followed.value.0 != [] && followed.value.0[0] == v.id && !h[v.id].ErrorNode?
  {
  }

  lemma CycleStep(sensitive: string -> bool, h: Heap, visited: set<nat>, id: nat, path: seq<nat>)
    requires id in h && id !in visited && path != []
    requires path[0] < |Shown(sensitive, h[id])| && Shown(sensitive, h[id])[path[0]].Some?
    ensures ClosesCycle(sensitive, h, visited, Reference(id), path)
      <==> ClosesCycle(sensitive, h, visited + {id}, Shown(sensitive, h[id])[path[0]].value, path[1..])
  {
    var inner := Follow(sensitive, h, Shown(sensitive, h[id])[path[0]].value, path[1..]);
    if inner.Some? {
      var chain := inner.value.0;
      assert Follow(sensitive, h, Reference(id), path) == Some(([id] + chain, inner.value.1));
      ChainStep(visited, id, chain);
      assert inner.value.1.Reference? ==>
        (inner.value.1.id in [id] + chain <==> inner.value.1.id == id || inner.value.1.id in chain);
    }
  }

  lemma ChainStep(visited: set<nat>, id: nat, chain: seq<nat>)
    requires id !in visited
    ensures NoRepeats([id] + chain) && (forall i | 0 <= i < |chain| + 1 :: ([id] + chain)[i] !in visited)
      <==> NoRepeats(chain) && (forall i | 0 <= i < |chain| :: chain[i] !in visited + {id})
  {
    var all := [id] + chain;
    assert forall i | 0 <= i < |chain| :: all[i + 1] == chain[i];
    if NoRepeats(all) && (forall i | 0 <= i < |chain| + 1 :: all[i] !in visited) {
      forall i | 0 <= i < |chain| ensures chain[i] !in visited + {id} {
        assert all[0] != all[i + 1] && all[i + 1] !in visited;
      }
      forall i, j | 0 <= i < j < |chain| ensures chain[i] != chain[j] {
        assert all[i + 1] != all[j + 1];
      }
    }
  }

  // ----- acyclic values

  /** What objects show refers only to objects of smaller rank. */
  ghost predicate Acyclic(sensitive: string -> bool, h: Heap, rank: nat -> nat) {
    forall id, i | id in h && 0 <= i < |Shown(sensitive, h[id])| :: RefersBelow(Shown(sensitive, h[id])[i], rank, id)
  }

  ghost predicate RefersBelow(shown: Option<Value>, rank: nat -> nat, id: nat) {
    shown.Some? && shown.value.Reference? ==> rank(shown.value.id) < rank(id)
  }

  /** The names under which an object is logged. */
  function KeysShown(fields: seq<Field>): seq<string> {
    if fields == [] then []
    else
      var last, front := fields[|fields| - 1], KeysShown(fields[..|fields| - 1]);
      if last.key == PROTOTYPE_KEY then front else front + [last.key]
  }

  /** The log entry is the plain unfolding of what is shown: no memory of visited objects, and no cycle marker. */
  predicate Unfolds(sensitive: string -> bool, h: Heap, shown: Option<Value>, l: Logged)
    decreases l
  {
    if shown.None? then l == Redacted
    else if !shown.value.Reference? then
      l == if shown.value.NonFinite? || shown.value.Foreign? then Unsupported else Scalar(shown.value)
    else if shown.value.id !in h then false
    else
      match h[shown.value.id]
      case ErrorNode(_) => l == ErrorType
      case ArrayNode(slots) =>
        && l.Items? && |l.items| == |slots|
        && forall i | 0 <= i < |slots| :: Unfolds(sensitive, h, ShownInSlot(slots[i]), l.items[i])
      case ObjectNode(fields) =>
        var children := ShownInFields(sensitive, fields);
        && l.Attributes? && |l.attributes| == |children| == |KeysShown(fields)|
        && (forall i | 0 <= i < |children| :: l.attributes[i].key == KeysShown(fields)[i])
        && forall i | 0 <= i < |children| :: Unfolds(sensitive, h, children[i], l.attributes[i].value)
  }

  lemma {:induction false} FieldKeys(sensitive: string -> bool, h: Heap, visited: set<nat>, fields: seq<Field>)
    requires Closed(h) && NodeKnown(h, ObjectNode(fields))
    ensures var attributes := RedactFields(sensitive, h, visited, fields);
      && |attributes| == |KeysShown(fields)|
      && forall i | 0 <= i < |attributes| :: attributes[i].key == KeysShown(fields)[i]
  {
    if fields != [] {
      FieldKeys(sensitive, h, visited, fields[..|fields| - 1]);
    }
  }

  /** On an acyclic heap redaction is the plain unfolding: shared objects are copied in full wherever they occur. */
  lemma {:induction false} AcyclicIsUnfolded(
      sensitive: string -> bool, h: Heap, rank: nat -> nat, visited: set<nat>, v: Value)
    requires Closed(h) && Known(h, v) && Acyclic(sensitive, h, rank)
    requires v.Reference? ==> forall id | id in visited :: rank(v.id) < rank(id)
    ensures Unfolds(sensitive, h, Some(v), Redact(sensitive, h, visited, v))
    decreases Left(h, visited)
  {
    if v.Reference? && !h[v.id].ErrorNode? {
      var node, shown := h[v.id], Shown(sensitive, h[v.id]);
      assert v.id !in visited;
      FewerLeft(h, visited, v.id);
      NodeChildren(sensitive, h, visited, v.id);
      var inner := visited + {v.id};
      forall i | 0 <= i < |shown| ensures
          (shown[i].Some? ==> Known(h, shown[i].value))
          && Unfolds(sensitive, h, shown[i], RedactShown(sensitive, h, inner, shown[i])) {
        if shown[i].Some? {
          assert RefersBelow(shown[i], rank, v.id);
          AcyclicIsUnfolded(sensitive, h, rank, inner, shown[i].value);
        }
      }
      UnfoldsNode(sensitive, h, visited, v.id);
    }
  }

  lemma UnfoldsNode(sensitive: string -> bool, h: Heap, visited: set<nat>, id: nat)
    requires Closed(h) && id in h && id !in visited && !h[id].ErrorNode?
    requires var shown := Shown(sensitive, h[id]);
      forall i | 0 <= i < |shown| ::
        (shown[i].Some? ==> Known(h, shown[i].value))
        && Unfolds(sensitive, h, shown[i], RedactShown(sensitive, h, visited + {id}, shown[i]))
    ensures Unfolds(sensitive, h, Some(Reference(id)), Redact(sensitive, h, visited, Reference(id)))
  {
    var shown, l := Shown(sensitive, h[id]), Redact(sensitive, h, visited, Reference(id));
    NodeChildren(sensitive, h, visited, id);
    assert NodeKnown(h, h[id]);
    var children := Children(l);
    match h[id] {
      case ArrayNode(slots) =>
        assert l.items == children;
      case ObjectNode(fields) =>
        FieldKeys(sensitive, h, visited + {id}, fields);
        assert forall i | 0 <= i < |children| :: l.attributes[i].value == children[i];
    }
    hide Redact, RedactShown, RedactFields, RedactSlots, Closed;
  }
}
