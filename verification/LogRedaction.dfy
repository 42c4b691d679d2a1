/** Redaction of log values: a walk over a heap of objects that may be shared or cyclic. */
module LogRedaction {

  /** A number stands for a finite one; `Foreign` are functions, symbols, undefined and big integers. */
  datatype Value = Null | Text(s: string) | Boolean(b: bool) | Number(n: int) | NonFinite | Foreign | Reference(id: nat)

  /** An own property with a value, one with a getter, or a hole in an array. */
  datatype Slot = Data(value: Value) | Accessor | Absent

  /** An own enumerable property with a text key. */
  datatype Field = Field(key: string, slot: Slot)

  datatype Node = ErrorNode(fields: seq<Field>) | ArrayNode(slots: seq<Slot>) | ObjectNode(fields: seq<Field>)

  type Heap = map<nat, Node>

  datatype Attribute = Attribute(key: string, value: Logged)

  /** What is logged: a scalar, one of the markers, the fixed shape of an error, or a copy of an array or object. */
  datatype Logged =
    | Scalar(value: Value)
    | Redacted
    | Unsupported
    | Circular
    | ErrorType
    | Items(items: seq<Logged>)
    | Attributes(attributes: seq<Attribute>)

  // ----- heaps without dangling references

  predicate Known(h: Heap, v: Value) {
    v.Reference? ==> v.id in h
  }

  predicate SlotKnown(h: Heap, slot: Slot) {
    slot.Data? ==> Known(h, slot.value)
  }

  predicate NodeKnown(h: Heap, node: Node) {
    match node
    case ArrayNode(slots) => forall i | 0 <= i < |slots| :: SlotKnown(h, slots[i])
    case ErrorNode(fields) => forall i | 0 <= i < |fields| :: SlotKnown(h, fields[i].slot)
    case ObjectNode(fields) => forall i | 0 <= i < |fields| :: SlotKnown(h, fields[i].slot)
  }

  predicate Closed(h: Heap) {
    forall id | id in h :: NodeKnown(h, h[id])
  }

  // ----- the walk

  /** How many objects have not been visited. */
  ghost function Left(h: Heap, visited: set<nat>): nat {
    |h.Keys - visited|
  }

  /** An assignment to this key of a fresh object stores no property. */
  const PROTOTYPE_KEY := "__proto__"

  /** `redactLogValue`. `sensitive` is the list of sensitive attribute names. */
  function Redact(sensitive: string -> bool, h: Heap, visited: set<nat>, v: Value): Logged
    requires Closed(h) && Known(h, v)
    decreases Left(h, visited), 0
  {
    match v
    case Reference(id) =>
      if h[id].ErrorNode? then ErrorType
      else if id in visited then Circular
      else
        FewerLeft(h, visited, id);
        assert NodeKnown(h, h[id]);
        RedactNode(sensitive, h, visited + {id}, h[id])
    case NonFinite => Unsupported
    case Foreign => Unsupported
    case _ => Scalar(v)
  }

  function RedactNode(sensitive: string -> bool, h: Heap, visited: set<nat>, node: Node): Logged
    requires Closed(h) && NodeKnown(h, node)
    decreases Left(h, visited), 3 + if node.ArrayNode? then |node.slots| else |node.fields|
  {
    match node
    case ErrorNode(_) => ErrorType
    case ArrayNode(slots) => Items(RedactSlots(sensitive, h, visited, slots))
    case ObjectNode(fields) => Attributes(RedactFields(sensitive, h, visited, fields))
  }

  function RedactSlot(sensitive: string -> bool, h: Heap, visited: set<nat>, slot: Slot): Logged
    requires Closed(h) && SlotKnown(h, slot)
    decreases Left(h, visited), 1
  {
    if slot.Data? then Redact(sensitive, h, visited, slot.value) else Redacted
  }

  function RedactSlots(sensitive: string -> bool, h: Heap, visited: set<nat>, slots: seq<Slot>): (r: seq<Logged>)
    requires Closed(h) && forall i | 0 <= i < |slots| :: SlotKnown(h, slots[i])
    ensures |r| == |slots|
    decreases Left(h, visited), 2 + |slots|
  {
    if slots == [] then []
    else
      var last := |slots| - 1;
      RedactSlots(sensitive, h, visited, slots[..last]) + [RedactSlot(sensitive, h, visited, slots[last])]
  }

  function RedactFields(sensitive: string -> bool, h: Heap, visited: set<nat>, fields: seq<Field>): seq<Attribute>
    requires Closed(h) && forall i | 0 <= i < |fields| :: SlotKnown(h, fields[i].slot)
    decreases Left(h, visited), 2 + |fields|
  {
    if fields == [] then []
    else
      var last := fields[|fields| - 1];
      var front := RedactFields(sensitive, h, visited, fields[..|fields| - 1]);
      if last.key == PROTOTYPE_KEY then front
      else if sensitive(last.key) then front + [Attribute(last.key, Redacted)]
      else front + [Attribute(last.key, RedactSlot(sensitive, h, visited, last.slot))]
  }

  lemma FewerLeft(h: Heap, visited: set<nat>, id: nat)
    requires id in h && id !in visited
    ensures Left(h, visited + {id}) < Left(h, visited)
  {
    assert h.Keys - (visited + {id}) == h.Keys - visited - {id};
  }

  /** `redactLogObject`: what is not an object comes out as an empty one. */
  function RedactLogObject(sensitive: string -> bool, h: Heap, id: nat): (r: Logged)
    requires Closed(h) && id in h
    ensures r.Attributes? || r.ErrorType?
    ensures !h[id].ArrayNode? ==> r == Redact(sensitive, h, {}, Reference(id))
    ensures h[id].ArrayNode? ==> r == Attributes([])
  {
    var redacted := Redact(sensitive, h, {}, Reference(id));
    assert NodeKnown(h, h[id]);
    assert !h[id].ErrorNode? ==> redacted == RedactNode(sensitive, h, {} + {id}, h[id]);
    if redacted.Attributes? || redacted.ErrorType? then redacted else Attributes([])
  }

  class LogRedactor {
    const sensitive: string -> bool
    const heap: Heap
    var visited: set<nat>

    constructor (sensitive: string -> bool, heap: Heap)
      requires Closed(heap)
      ensures this.sensitive == sensitive && this.heap == heap && visited == {}
    {
      this.sensitive, this.heap, this.visited := sensitive, heap, {};
    }

    /** The recursive walk restores the set of visited objects. */
    method RedactLogValue(v: Value) returns (logged: Logged)
      requires Closed(heap) && Known(heap, v)
      modifies this
      ensures visited == old(visited)
      ensures logged == Redact(sensitive, heap, old(visited), v)
      decreases Left(heap, visited), 0
    {
      hide RedactNode, Left;
      if !v.Reference? {
        return if v.NonFinite? || v.Foreign? then Unsupported else Scalar(v);
      }
      if heap[v.id].ErrorNode? {
        return ErrorType;
      }
      if v.id in visited {
        return Circular;
      }
      FewerLeft(heap, visited, v.id);
      assert NodeKnown(heap, heap[v.id]);
      hide Closed, NodeKnown;
      ghost var before := visited;
      visited := visited + {v.id};
      logged := RedactContents(heap[v.id]);
      visited := visited - {v.id};
      assert visited == before;
    }

    method RedactContents(node: Node) returns (logged: Logged)
      requires Closed(heap) && NodeKnown(heap, node)
      modifies this
      ensures visited == old(visited)
      ensures logged == RedactNode(sensitive, heap, visited, node)
      decreases Left(heap, visited), 2
    {
      match node {
        case ErrorNode(_) =>
          return ErrorType;
        case ArrayNode(slots) =>
          var values := RedactArray(slots);
          return Items(values);
        case ObjectNode(fields) =>
          var attributes := RedactObject(fields);
          return Attributes(attributes);
      }
    }

    method RedactArray(slots: seq<Slot>) returns (values: seq<Logged>)
      requires Closed(heap) && forall i | 0 <= i < |slots| :: SlotKnown(heap, slots[i])
      modifies this
      ensures visited == old(visited)
      ensures values == RedactSlots(sensitive, heap, visited, slots)
      decreases Left(heap, visited), 1
    {
      values := [];
      for index := 0 to |slots|
        invariant visited == old(visited)
        invariant values == RedactSlots(sensitive, heap, visited, slots[..index])
      {
        assert slots[..index + 1][..index] == slots[..index];
        var value := Redacted;
        if slots[index].Data? {
          assert SlotKnown(heap, slots[index]);
          value := RedactLogValue(slots[index].value);
        }
        values := values + [value];
      }
      assert slots[..|slots|] == slots;
    }

    method RedactObject(fields: seq<Field>) returns (attributes: seq<Attribute>)
      requires Closed(heap) && forall i | 0 <= i < |fields| :: SlotKnown(heap, fields[i].slot)
      modifies this
      ensures visited == old(visited)
      ensures attributes == RedactFields(sensitive, heap, visited, fields)
      decreases Left(heap, visited), 1
    {
      attributes := [];
      for index := 0 to |fields|
        invariant visited == old(visited)
        invariant attributes == RedactFields(sensitive, heap, visited, fields[..index])
      {
        assert fields[..index + 1][..index] == fields[..index];
        var field := fields[index];
        var value := Redacted;
        if !sensitive(field.key) && field.slot.Data? {
          assert SlotKnown(heap, field.slot);
          value := RedactLogValue(field.slot.value);
        }
        if field.key != PROTOTYPE_KEY {
          attributes := attributes + [Attribute(field.key, value)];
        }
      }
      assert fields[..|fields|] == fields;
    }
  }
}
