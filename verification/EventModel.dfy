/** `events/models.py`, `events/subscriber.py`: the values that travel through the event bus. */
module EventModel {
  import opened Collections

  datatype Event = Event(id: Id, kind: Id, source: Id, time: int, body: string)

  /** A subscriber object; `key` stands for its identity. */
  datatype Subscriber = Subscriber(key: nat, name: Id, kinds: seq<Id>, active: bool) {
    predicate Matches(kind: Id) { kind in kinds || kinds == [] }
  }
}
