/** `Kroniko::Event` and `Kroniko::SequencedEvent`: immutable records with a
    type and a data payload (and, for the sequenced kind, a position), and their
    `to_h` shapes. Ruby values are untyped, so the fields hold a `Value`; nil and
    false are the values Ruby treats as false. */
module KronikoEvent {
  import opened OrderedHash

  datatype Value =
    | Nil
    | Bool(b: bool)
    | Int(i: int)
    | Str(s: string)
    | Obj(entries: Hash<string, Value>)

  predicate Truthy(v: Value)
  {
    !(v.Nil? || v == Bool(false))
  }

  datatype Event = Event(eventType: Value, data: Value)

  /** `Event.new(data:, type: nil)` on the class named `className`: a missing
      (or false) type becomes the class name; `data` is kept as given. */
  function NewEvent(className: string, data: Value, eventType: Value): (e: Event)
    ensures e.data == data
    ensures Truthy(eventType) ==> e.eventType == eventType
    ensures !Truthy(eventType) ==> e.eventType == Str(className)
    ensures Truthy(e.eventType)
  {
    Event(if Truthy(eventType) then eventType else Str(className), data)
  }

  /** `Event#to_h`: `{ "type" => type, "data" => data }`. */
  function ToH(e: Event): (h: Hash<string, Value>)
    ensures Keys(h) == {"type", "data"}
    ensures Get(h, "type") == Some(e.eventType) && Get(h, "data") == Some(e.data)
    ensures h[0].0 == "type"
  {
    var h := [("type", e.eventType), ("data", e.data)];
    assert Keys(h[1..][1..]) == {};
    assert Keys(h[1..]) == {"data"};
    h
  }

  /** A `SequencedEvent` is an `Event` (its superclass part) with a position. */
  datatype SequencedEvent = SequencedEvent(base: Event, position: Value)

  /** `SequencedEvent.new(type:, data:, position:)`: `super` handles type and
      data exactly as `Event.new` does on the subclass; the position is kept. */
  function NewSequencedEvent(className: string, eventType: Value, data: Value, position: Value): (e: SequencedEvent)
    ensures e.base == NewEvent(className, data, eventType)
    ensures e.position == position
  {
    SequencedEvent(NewEvent(className, data, eventType), position)
  }

  /** `SequencedEvent#to_h`: `super.merge("position" => position)`. */
  function SequencedToH(e: SequencedEvent): (h: Hash<string, Value>)
  {
    Put(ToH(e.base), "position", e.position)
  }

  /** The sequenced hash is the event's hash with `"position"` added at the end:
      exactly the keys `"type"`, `"data"` and `"position"`, each with its field. */
  lemma SequencedToHShape(e: SequencedEvent)
    ensures SequencedToH(e) == ToH(e.base) + [("position", e.position)]
    ensures Keys(SequencedToH(e)) == {"type", "data", "position"}
    ensures Get(SequencedToH(e), "type") == Some(e.base.eventType)
    ensures Get(SequencedToH(e), "data") == Some(e.base.data)
    ensures Get(SequencedToH(e), "position") == Some(e.position)
  {
    assert "position" !in Keys(ToH(e.base));
  }

  /** Ruby's `||` default: an explicit type survives construction, a nil one
      becomes the class name. */
  lemma TypeDefaultExamples()
    ensures NewEvent("Kroniko::Event", Nil, Nil).eventType == Str("Kroniko::Event")
    ensures NewEvent("Kroniko::Event", Nil, Str("ItemAdded")).eventType == Str("ItemAdded")
    ensures NewSequencedEvent("Kroniko::SequencedEvent", Nil, Nil, Int(1)).base.eventType == Str("Kroniko::SequencedEvent")
  {
  }
}

/** Field-only records that the event store's signatures mention:
    `AppendCondition` (append_condition.rb) and `Kroniko::ReadOptions`. No
    behaviour is attached to them in the source. */
module StoreOptions {
  import KronikoQuery
  import opened OrderedHash

  /** `AppendCondition.new(fail_if_events_match:, after: nil)`. */
  datatype AppendCondition = AppendCondition(failIfEventsMatch: KronikoQuery.Query, after: Option<int>)

  /** `ReadOptions.new(from: nil, backwards: false)`. */
  datatype ReadOptions = ReadOptions(from: Option<int>, backwards: bool)

  const DefaultReadOptions := ReadOptions(None, false)
}
