/** The Event record, the normalisation of its creation payload
    (events/models.py) and the invariants the registration engine keeps. */
module EventModel {
  import opened Common
  import opened Seqs

  /** An event as stored. `registered` and `waitlist` hold user ids in
      registration order and in FIFO order. `title` and `waitlistEnabled`
      are the alternate input names; they are kept as supplied. */
  datatype Event = Event(
    eventId: string,
    title: Option<string>,
    name: Option<string>,
    description: Option<string>,
    date: Option<string>,
    location: Option<string>,
    capacity: int,
    organizer: Option<string>,
    status: Option<string>,
    waitlistEnabled: Option<bool>,
    hasWaitlist: Option<bool>,
    registered: seq<string>,
    waitlist: seq<string>)

  /** A key of the creation payload: left out, given as `null`, or given a value.
      Only the two waitlist flags need all three, because the normalisation
      tests whether their keys are present. */
  datatype Field<T> = Absent | Null | Given(value: T)

  /** The keyword arguments of `Event(**data)`. For the optional strings an
      absent key and a `null` value both mean `None`; for the two lists `None`
      means the key is absent. */
  datatype EventPayload = EventPayload(
    eventId: string,
    title: Option<string>,
    name: Option<string>,
    description: Option<string>,
    date: Option<string>,
    location: Option<string>,
    capacity: int,
    organizer: Option<string>,
    status: Option<string>,
    waitlistEnabled: Field<bool>,
    hasWaitlist: Field<bool>,
    registered: Option<seq<string>>,
    waitlist: Option<seq<string>>)

  /** The value a present key carries into the model (`null` is `None`). */
  function FieldValue<T>(f: Field<T>): Option<T> {
    match f
    case Given(v) => Some(v)
    case _ => None
  }

  /** `data['title']` is truthy: present, not `None`, not the empty string. */
  predicate TitleTruthy(p: EventPayload) {
    p.title.Some? && p.title.value != ""
  }

  /** `Event.__init__`: `title` overrides `name` when truthy; a present
      `waitlistEnabled` key overrides `hasWaitlist`, which defaults to `False`
      when neither key is present; the lists default to empty. */
  function NewEvent(p: EventPayload): (e: Event)
    ensures e.eventId == p.eventId && e.capacity == p.capacity && e.title == p.title
    ensures TitleTruthy(p) ==> e.name == p.title
    ensures !TitleTruthy(p) ==> e.name == p.name
    ensures p.waitlistEnabled != Absent ==> e.hasWaitlist == FieldValue(p.waitlistEnabled)
    ensures p.waitlistEnabled == Absent && p.hasWaitlist != Absent ==> e.hasWaitlist == FieldValue(p.hasWaitlist)
    ensures p.waitlistEnabled == Absent && p.hasWaitlist == Absent ==> e.hasWaitlist == Some(false)
    ensures e.waitlistEnabled == FieldValue(p.waitlistEnabled)
    ensures e.description == p.description && e.date == p.date && e.location == p.location
    ensures e.organizer == p.organizer && e.status == p.status
    ensures p.registered.Some? ==> e.registered == p.registered.value
    ensures p.registered == None ==> e.registered == []
    ensures p.waitlist.Some? ==> e.waitlist == p.waitlist.value
    ensures p.waitlist == None ==> e.waitlist == []
  {
    var name := if TitleTruthy(p) then p.title else p.name;
    var hasWaitlist :=
      if p.waitlistEnabled != Absent then FieldValue(p.waitlistEnabled)
      else if p.hasWaitlist == Absent then Some(false)
      else FieldValue(p.hasWaitlist);
    Event(p.eventId, p.title, name, p.description, p.date, p.location, p.capacity,
          p.organizer, p.status, FieldValue(p.waitlistEnabled), hasWaitlist,
          if p.registered.Some? then p.registered.value else [],
          if p.waitlist.Some? then p.waitlist.value else [])
  }

  /** `if event.hasWaitlist:` — only `True` enables the waitlist; `False` and
      `None` do not. */
  predicate WaitlistOn(e: Event) {
    e.hasWaitlist == Some(true)
  }

  /** The user holds a slot or a waitlist place. */
  predicate Associated(e: Event, userId: string) {
    userId in e.registered || userId in e.waitlist
  }

  /** The registered list has reached capacity. */
  predicate Full(e: Event) {
    |e.registered| >= e.capacity
  }

  /** The invariant the registration engine keeps for every event:
      capacity is respected, each list is duplicate-free, and no user is
      both registered and waitlisted. */
  predicate WellFormed(e: Event) {
    && |e.registered| <= e.capacity
    && NoDups(e.registered)
    && NoDups(e.waitlist)
    && Disjoint(e.registered, e.waitlist)
  }

  /** A waiting user exists only behind a full event that has a waitlist. */
  predicate WaitlistOnlyWhenFull(e: Event) {
    e.waitlist != [] ==> Full(e) && WaitlistOn(e)
  }

  /** The two events agree on everything but their lists. */
  predicate SameDetails(a: Event, b: Event) {
    a.(registered := [], waitlist := []) == b.(registered := [], waitlist := [])
  }

  /** The lists an event starts with, whatever the payload supplied. */
  function Cleared(e: Event): (c: Event)
    ensures SameDetails(c, e) && c.registered == [] && c.waitlist == []
  {
    e.(registered := [], waitlist := [])
  }

  /** An event with positive capacity and cleared lists meets both invariants. */
  lemma ClearedWellFormed(e: Event)
    requires e.capacity > 0
    ensures WellFormed(Cleared(e)) && WaitlistOnlyWhenFull(Cleared(e))
  {
  }

  /** The alias pairs of the payload, on concrete inputs. */
  lemma NormalisationExamples()
    ensures var e := NewEvent(EventPayload("e1", Some("Launch"), Some("Old"), None, None, None, 5,
                                           None, None, Given(true), Given(false), None, None));
            e.name == Some("Launch") && WaitlistOn(e)
    ensures var e := NewEvent(EventPayload("e1", Some(""), Some("Old"), None, None, None, 5,
                                           None, None, Absent, Absent, None, None));
            e.name == Some("Old") && e.hasWaitlist == Some(false) && !WaitlistOn(e)
    ensures var e := NewEvent(EventPayload("e1", None, None, None, None, None, 5,
                                           None, None, Null, Given(true), None, None));
            e.hasWaitlist == None && !WaitlistOn(e)
  {
  }
}
