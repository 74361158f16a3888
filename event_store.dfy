/** The in-memory event store (events/repository.py): a dictionary from
    event id to event. */
module EventStore {
  import opened Common
  import opened Seqs
  import opened EventModel

  class EventRepository {
    /** The dictionary `_events`. */
    var events: map<string, Event>
    /** Its keys in insertion order, the order a Python dictionary iterates in. */
    var order: seq<string>

    ghost predicate Valid()
      reads this
    {
      && NoDups(order)
      && (forall id :: id in order <==> id in events)
      && (forall id :: id in events ==> events[id].eventId == id)
    }

    constructor ()
      ensures Valid() && events == map[] && order == []
    {
      events := map[];
      order := [];
    }

    /** `create`: stores the event under its id without looking for an
        existing entry, so an existing entry is silently overwritten. */
    method Create(e: Event) returns (r: Event)
      requires Valid()
      modifies this
      ensures Valid() && r == e
      ensures events == old(events)[e.eventId := e]
      ensures order == if e.eventId in old(events) then old(order) else old(order) + [e.eventId]
      ensures Get(e.eventId) == Some(e) && Exists(e.eventId)
    {
      if e.eventId !in events {
        order := order + [e.eventId];
      }
      events := events[e.eventId := e];
      r := e;
    }

    /** `get`: the stored event, or `None` when the id is absent. */
    function Get(id: string): (r: Option<Event>)
      reads this
      ensures r.None? <==> id !in events
      ensures r.Some? ==> r.value == events[id]
    {
      if id in events then Some(events[id]) else None
    }

    /** `exists`: whether the id is a key of the store. */
    function Exists(id: string): (b: bool)
      reads this
      ensures b <==> Get(id).Some?
    {
      id in events
    }

    /** `update`: writes the event back under its id; every other entry is
        left as it was. */
    method Update(e: Event) returns (r: Event)
      requires Valid()
      modifies this
      ensures Valid() && r == e
      ensures events == old(events)[e.eventId := e]
      ensures order == if e.eventId in old(events) then old(order) else old(order) + [e.eventId]
      ensures forall id :: id != e.eventId ==> Get(id) == old(Get(id))
    {
      if e.eventId !in events {
        order := order + [e.eventId];
      }
      events := events[e.eventId := e];
      r := e;
    }

    /** `list_all`: the stored events in insertion order, exactly one per key. */
    function ListAll(): (r: seq<Event>)
      requires Valid()
      reads this
      ensures |r| == |events| == |order|
      ensures forall i :: 0 <= i < |r| ==> r[i] == events[order[i]]
      ensures forall id :: id in events ==> events[id] in r
    {
      ValuesAtCoversMap(events, order);
      ValuesAt(events, order)
    }
  }
}
