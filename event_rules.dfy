/** The event service (events/service.py): creation rules, lookup and the
    registrations snapshot. */
module EventRules {
  import opened Common
  import opened EventModel
  import opened EventStore

  /** The dictionary `get_event_registrations` returns. */
  datatype Registrations = Registrations(
    registered: seq<string>,
    waitlist: seq<string>,
    capacity: int,
    availableSpots: int)

  /** The registrations snapshot of one event: its lists, its capacity and
      the slots left, which are never negative while the capacity invariant
      holds. */
  function Snapshot(e: Event): (s: Registrations)
    ensures s.registered == e.registered && s.waitlist == e.waitlist && s.capacity == e.capacity
    ensures s.availableSpots + |e.registered| == e.capacity
    ensures WellFormed(e) ==> 0 <= s.availableSpots <= e.capacity
    ensures s.availableSpots == 0 <==> |e.registered| == e.capacity
  {
    Registrations(e.registered, e.waitlist, e.capacity, e.capacity - |e.registered|)
  }

  /** Right after creation every slot is free. */
  lemma FreshEventAllSpotsFree(e: Event)
    ensures Snapshot(Cleared(e)).availableSpots == e.capacity
  {
  }

  class EventService {
    const repo: EventRepository

    ghost predicate Valid()
      reads this, repo
    {
      repo.Valid()
    }

    constructor (repo: EventRepository)
      ensures this.repo == repo
    {
      this.repo := repo;
    }

    /** `create_event`: the capacity check comes first (so a duplicate id with
        capacity 0 is a validation error), then the duplicate check; on success
        the lists are cleared whatever was supplied and the event is stored. */
    method CreateEvent(e: Event) returns (r: Result<Event>)
      requires Valid()
      modifies repo
      ensures Valid()
      ensures e.capacity <= 0 ==> r == Failure(Invalid) && unchanged(repo)
      ensures e.capacity > 0 && e.eventId in old(repo.events) ==>
                r == Failure(AlreadyExists) && unchanged(repo)
      ensures e.capacity > 0 && e.eventId !in old(repo.events) ==>
                && r == Success(Cleared(e))
                && repo.events == old(repo.events)[e.eventId := Cleared(e)]
                && repo.order == old(repo.order) + [e.eventId]
      ensures r.Success? ==>
                && WellFormed(r.value) && WaitlistOnlyWhenFull(r.value)
                && GetEventRegistrations(e.eventId) == Success(Snapshot(r.value))
                && Snapshot(r.value).availableSpots == e.capacity
    {
      if e.capacity <= 0 {
        return Failure(Invalid);
      }
      if repo.Exists(e.eventId) {
        return Failure(AlreadyExists);
      }
      var event := e.(registered := [], waitlist := []);
      var stored := repo.Create(event);
      r := Success(stored);
    }

    /** `get_event`: the stored event, or NotFound. */
    function GetEvent(id: string): (r: Result<Event>)
      reads this, repo
      ensures r.Failure? <==> id !in repo.events
      ensures r.Failure? ==> r.error == NotFound
      ensures r.Success? ==> r.value == repo.events[id]
    {
      match repo.Get(id)
      case None => Failure(NotFound)
      case Some(e) => Success(e)
    }

    /** `get_event_registrations`: the snapshot of the stored event, or
        NotFound; `availableSpots` is not negative for a well-formed event. */
    function GetEventRegistrations(id: string): (r: Result<Registrations>)
      reads this, repo
      ensures r.Failure? <==> id !in repo.events
      ensures r.Failure? ==> r.error == NotFound
      ensures r.Success? ==> r.value == Snapshot(repo.events[id])
      ensures r.Success? && WellFormed(repo.events[id]) ==> r.value.availableSpots >= 0
    {
      match GetEvent(id)
      case Failure(err) => Failure(err)
      case Success(e) => Success(Snapshot(e))
    }
  }
}
