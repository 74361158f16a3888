/** The registration engine (registrations/service.py): for each (event, user)
    pair a user is unassociated, registered or waitlisted. `Enroll` and
    `Withdraw` state one transition on an event value; `RegistrationService`
    runs them against the stores. */
module Registration {
  import opened Common
  import opened Seqs
  import opened EventModel
  import opened UserStore
  import opened EventStore

  /** What a successful register or unregister reports. */
  datatype Outcome =
    | Registered
    | Waitlisted
    | Unregistered
    | Promoted(userId: string)
    | RemovedFromWaitlist

  /** An outcome with the event as it is afterwards. */
  datatype Step = Step(outcome: Outcome, event: Event)

  /** The part of `register_user` that follows the two lookups: refuse a user
      who is already registered or waitlisted; take a free slot if there is
      one; otherwise join the waitlist if the event has one, or fail. */
  function Enroll(e: Event, userId: string): (r: Result<Step>)
    ensures r == Failure(AlreadyAssociated) <==> Associated(e, userId)
    ensures r == Failure(CapacityFull) <==> !Associated(e, userId) && Full(e) && !WaitlistOn(e)
    ensures r.Failure? ==> r.error == AlreadyAssociated || r.error == CapacityFull
    ensures r.Success? ==> SameDetails(r.value.event, e) && Associated(r.value.event, userId)
    ensures r.Success? ==> (r.value.outcome == Registered <==> !Full(e))
    ensures r.Success? && r.value.outcome == Registered ==>
              r.value.event.registered == e.registered + [userId] && r.value.event.waitlist == e.waitlist
    ensures r.Success? && r.value.outcome != Registered ==>
              && r.value.outcome == Waitlisted && WaitlistOn(e)
              && r.value.event.waitlist == e.waitlist + [userId] && r.value.event.registered == e.registered
  {
    if userId in e.registered || userId in e.waitlist then Failure(AlreadyAssociated)
    else if |e.registered| < e.capacity then
      Success(Step(Registered, e.(registered := e.registered + [userId])))
    else if WaitlistOn(e) then
      Success(Step(Waitlisted, e.(waitlist := e.waitlist + [userId])))
    else Failure(CapacityFull)
  }

  /** The part of `unregister_user` that follows the event lookup: a
      registered user gives up the slot and the head of the waitlist, if
      any, takes it; a waitlisted user leaves the waitlist; anyone else is
      not associated. */
  function Withdraw(e: Event, userId: string): (r: Result<Step>)
    ensures r.Failure? <==> !Associated(e, userId)
    ensures r.Failure? ==> r.error == NotAssociated
    ensures r.Success? ==> SameDetails(r.value.event, e)
    ensures userId in e.registered && e.waitlist != [] ==>
              && r.Success? && r.value.outcome == Promoted(e.waitlist[0])
              && r.value.event.registered == RemoveFirst(e.registered, userId) + [e.waitlist[0]]
              && r.value.event.waitlist == e.waitlist[1..]
    ensures userId in e.registered && e.waitlist == [] ==>
              && r.Success? && r.value.outcome == Unregistered
              && r.value.event.registered == RemoveFirst(e.registered, userId)
              && r.value.event.waitlist == []
    ensures userId !in e.registered && userId in e.waitlist ==>
              && r.Success? && r.value.outcome == RemovedFromWaitlist
              && r.value.event.registered == e.registered
              && r.value.event.waitlist == RemoveFirst(e.waitlist, userId)
  {
    if userId in e.registered then
      var rest := RemoveFirst(e.registered, userId);
      if e.waitlist != [] then
        var promoted := e.waitlist[0];
        Success(Step(Promoted(promoted), e.(registered := rest + [promoted], waitlist := e.waitlist[1..])))
      else
        Success(Step(Unregistered, e.(registered := rest)))
    else if userId in e.waitlist then
      Success(Step(RemovedFromWaitlist, e.(waitlist := RemoveFirst(e.waitlist, userId))))
    else Failure(NotAssociated)
  }

  /** Registering keeps capacity, duplicate-freedom and disjointness. */
  lemma EnrollPreservesWellFormed(e: Event, userId: string)
    requires WellFormed(e)
    ensures Enroll(e, userId).Success? ==> WellFormed(Enroll(e, userId).value.event)
  {
  }

  /** Unregistering keeps capacity, duplicate-freedom and disjointness. */
  lemma WithdrawPreservesWellFormed(e: Event, userId: string)
    requires WellFormed(e)
    ensures Withdraw(e, userId).Success? ==> WellFormed(Withdraw(e, userId).value.event)
  {
    RemoveFirstMembers(e.registered, userId);
    RemoveFirstNoDups(e.registered, userId);
    RemoveFirstMembers(e.waitlist, userId);
    RemoveFirstNoDups(e.waitlist, userId);
    var r := Withdraw(e, userId);
    if r.Success? && userId in e.registered && e.waitlist != [] {
      var e' := r.value.event;
      var head := e.waitlist[0];
      assert head !in e.registered;
      assert head !in e.waitlist[1..];
      forall x | x in e'.registered
        ensures x !in e'.waitlist
      {
        if x != head {
          assert x in e.registered;
        }
      }
    }
  }

  /** Both transitions keep "someone waits only behind a full event that has
      a waitlist". */
  lemma TransitionsPreserveWaitlistOnlyWhenFull(e: Event, userId: string)
    requires WellFormed(e) && WaitlistOnlyWhenFull(e)
    ensures Enroll(e, userId).Success? ==> WaitlistOnlyWhenFull(Enroll(e, userId).value.event)
    ensures Withdraw(e, userId).Success? ==> WaitlistOnlyWhenFull(Withdraw(e, userId).value.event)
  {
  }

  /** Promotion keeps the number of registered users and shortens the
      waitlist by one; the promoted user is now registered and no longer
      waits, and the leaving user is no longer associated. */
  lemma PromotionKeepsCount(e: Event, userId: string)
    requires WellFormed(e)
    requires userId in e.registered && e.waitlist != []
    ensures var e' := Withdraw(e, userId).value.event;
            && |e'.registered| == |e.registered|
            && |e'.waitlist| == |e.waitlist| - 1
            && e.waitlist[0] in e'.registered && e.waitlist[0] !in e'.waitlist
            && !Associated(e', userId)
  {
  }

  /** After a successful unregister the user holds neither a slot nor a
      waitlist place. */
  lemma WithdrawDisassociates(e: Event, userId: string)
    requires WellFormed(e)
    requires Withdraw(e, userId).Success?
    ensures !Associated(Withdraw(e, userId).value.event, userId)
  {
  }

  /** Registering the same user twice always fails the second time, whatever
      the capacity. */
  lemma EnrollTwiceFails(e: Event, userId: string)
    requires Enroll(e, userId).Success?
    ensures Enroll(Enroll(e, userId).value.event, userId) == Failure(AlreadyAssociated)
  {
  }

  /** The events of `events` whose registered list holds the user, in their
      original order; waitlist places do not count. */
  function RegisteredFor(events: seq<Event>, userId: string): (r: seq<Event>)
    ensures |r| <= |events|
    ensures forall e :: e in r <==> e in events && userId in e.registered
  {
    if events == [] then []
    else
      var init := events[..|events| - 1];
      var last := events[|events| - 1];
      assert events == init + [last];
      RegisteredFor(init, userId) + (if userId in last.registered then [last] else [])
  }

  /** Extending the filtered prefix by one event adds that event exactly when
      the user is registered for it. */
  lemma RegisteredForStep(events: seq<Event>, i: nat, userId: string)
    requires i < |events|
    ensures RegisteredFor(events[..i + 1], userId)
            == RegisteredFor(events[..i], userId) + (if userId in events[i].registered then [events[i]] else [])
  {
    assert events[..i + 1][..i] == events[..i];
  }

  /** Filtering distributes over concatenation: the listing keeps the order of
      the events it filters. */
  lemma {:induction false} RegisteredForAppend(a: seq<Event>, b: seq<Event>, userId: string)
    ensures RegisteredFor(a + b, userId) == RegisteredFor(a, userId) + RegisteredFor(b, userId)
  {
    if b != [] {
      var init := b[..|b| - 1];
      assert (a + b)[..|a + b| - 1] == a + init;
      RegisteredForAppend(a, init, userId);
    } else {
      assert a + b == a;
    }
  }

  /** A user who holds no slot in any of the events gets an empty listing,
      not an error, even when waitlisted everywhere. */
  lemma WaitlistedOnlyListsNothing(events: seq<Event>, userId: string)
    requires forall e :: e in events ==> userId !in e.registered
    ensures RegisteredFor(events, userId) == []
  {
  }

  /** Waitlist promotion is first in, first out: with waitlist [a, b], the
      first freed slot goes to a and the next one to b. */
  lemma FifoPromotion(e: Event, u: string, a: string, b: string)
    requires e.registered == [u] && e.waitlist == [a, b] && u != a && u != b && a != b
    ensures var first := Withdraw(e, u);
            && first == Success(Step(Promoted(a), e.(registered := [a], waitlist := [b])))
            && Withdraw(first.value.event, a) == Success(Step(Promoted(b), e.(registered := [b], waitlist := [])))
  {
    assert RemoveFirst(e.registered, u) + [a] == [a];
    assert e.waitlist[0] == a && e.waitlist[1..] == [b];
    var next := e.(registered := [a], waitlist := [b]);
    assert RemoveFirst(next.registered, a) + [b] == [b];
    assert next.waitlist[1..] == [];
  }

  /** Capacity one without a waitlist: the first user registers, the second
      is refused. */
  lemma CapacityOneNoWaitlist(e: Event, u1: string, u2: string)
    requires e.capacity == 1 && e.registered == [] && e.waitlist == [] && !WaitlistOn(e) && u1 != u2
    ensures var first := Enroll(e, u1);
            && first == Success(Step(Registered, e.(registered := [u1])))
            && Enroll(first.value.event, u2) == Failure(CapacityFull)
  {
    assert e.registered + [u1] == [u1];
  }

  /** Capacity one with a waitlist: the second user waits and is promoted
      when the first leaves, which empties the waitlist. */
  lemma CapacityOneWithWaitlist(e: Event, u1: string, u2: string)
    requires e.capacity == 1 && e.registered == [] && e.waitlist == [] && WaitlistOn(e) && u1 != u2
    ensures var first := Enroll(e, u1);
            var second := Enroll(first.value.event, u2);
            && first.Success? && first.value.outcome == Registered
            && second == Success(Step(Waitlisted, e.(registered := [u1], waitlist := [u2])))
            && Withdraw(second.value.event, u1) == Success(Step(Promoted(u2), e.(registered := [u2], waitlist := [])))
  {
    assert e.registered + [u1] == [u1];
    assert e.waitlist + [u2] == [u2];
    assert RemoveFirst([u1], u1) == [];
    assert [u2][1..] == [];
  }

  /** Unregistering a user who was never associated fails. */
  lemma WithdrawUnassociatedFails(e: Event, userId: string)
    requires !Associated(e, userId)
    ensures Withdraw(e, userId) == Failure(NotAssociated)
  {
  }

  /** Every stored event meets the engine's invariants. */
  predicate AllWellFormed(events: map<string, Event>) {
    forall id :: id in events ==> WellFormed(events[id]) && WaitlistOnlyWhenFull(events[id])
  }

  /** A transition that succeeds on a stored event keeps every stored event
      within the invariants once its result is written back. */
  lemma WriteBackKeepsAllWellFormed(events: map<string, Event>, id: string, r: Result<Step>, userId: string)
    requires AllWellFormed(events) && id in events
    requires r == Enroll(events[id], userId) || r == Withdraw(events[id], userId)
    requires r.Success?
    ensures AllWellFormed(events[id := r.value.event])
  {
    EnrollPreservesWellFormed(events[id], userId);
    WithdrawPreservesWellFormed(events[id], userId);
    TransitionsPreserveWaitlistOnlyWhenFull(events[id], userId);
  }

  class RegistrationService {
    const userRepo: UserRepository
    const eventRepo: EventRepository

    ghost predicate Valid()
      reads this, userRepo, eventRepo
    {
      userRepo.Valid() && eventRepo.Valid()
    }

    constructor (userRepo: UserRepository, eventRepo: EventRepository)
      ensures this.userRepo == userRepo && this.eventRepo == eventRepo
    {
      this.userRepo := userRepo;
      this.eventRepo := eventRepo;
    }

    /** `register_user`: the user is looked up before the event; then the
        event goes through `Enroll` and, on success, is written back. No other
        event changes, and the invariants of every event are kept. */
    method RegisterUser(eventId: string, userId: string) returns (r: Result<Outcome>)
      requires Valid()
      modifies eventRepo
      ensures Valid()
      ensures eventRepo.order == old(eventRepo.order)
      ensures userId !in userRepo.users ==>
                r == Failure(NotFound) && eventRepo.events == old(eventRepo.events)
      ensures userId in userRepo.users && eventId !in old(eventRepo.events) ==>
                r == Failure(NotFound) && eventRepo.events == old(eventRepo.events)
      ensures userId in userRepo.users && eventId in old(eventRepo.events) ==>
                match Enroll(old(eventRepo.events[eventId]), userId)
                case Failure(err) => r == Failure(err) && eventRepo.events == old(eventRepo.events)
                case Success(step) =>
                  r == Success(step.outcome) && eventRepo.events == old(eventRepo.events)[eventId := step.event]
      ensures AllWellFormed(old(eventRepo.events)) ==> AllWellFormed(eventRepo.events)
    {
      if !userRepo.Exists(userId) {
        return Failure(NotFound);
      }
      var found := eventRepo.Get(eventId);
      if found.None? {
        return Failure(NotFound);
      }
      var event := found.value;
      ghost var before := event;
      if userId in event.registered || userId in event.waitlist {
        return Failure(AlreadyAssociated);
      }
      if |event.registered| < event.capacity {
        event := event.(registered := event.registered + [userId]);
        var _ := eventRepo.Update(event);
        r := Success(Registered);
      } else if WaitlistOn(event) {
        event := event.(waitlist := event.waitlist + [userId]);
        var _ := eventRepo.Update(event);
        r := Success(Waitlisted);
      } else {
        return Failure(CapacityFull);
      }
      if AllWellFormed(old(eventRepo.events)) {
        WriteBackKeepsAllWellFormed(old(eventRepo.events), eventId, Enroll(before, userId), userId);
      }
    }

    /** `unregister_user`: only the event is looked up (the user's existence
        is not checked); the event goes through `Withdraw` and, on success, is
        written back. No other event changes, and the invariants of every
        event are kept. */
    method UnregisterUser(eventId: string, userId: string) returns (r: Result<Outcome>)
      requires Valid()
      modifies eventRepo
      ensures Valid()
      ensures eventRepo.order == old(eventRepo.order)
      ensures eventId !in old(eventRepo.events) ==>
                r == Failure(NotFound) && eventRepo.events == old(eventRepo.events)
      ensures eventId in old(eventRepo.events) ==>
                match Withdraw(old(eventRepo.events[eventId]), userId)
                case Failure(err) => r == Failure(err) && eventRepo.events == old(eventRepo.events)
                case Success(step) =>
                  r == Success(step.outcome) && eventRepo.events == old(eventRepo.events)[eventId := step.event]
      ensures AllWellFormed(old(eventRepo.events)) ==> AllWellFormed(eventRepo.events)
    {
      var found := eventRepo.Get(eventId);
      if found.None? {
        return Failure(NotFound);
      }
      var event := found.value;
      ghost var before := event;
      if userId in event.registered {
        event := event.(registered := RemoveFirst(event.registered, userId));
        if event.waitlist != [] {
          var promoted := event.waitlist[0];
          event := event.(waitlist := event.waitlist[1..]);
          event := event.(registered := event.registered + [promoted]);
          var _ := eventRepo.Update(event);
          r := Success(Promoted(promoted));
        } else {
          var _ := eventRepo.Update(event);
          r := Success(Unregistered);
        }
      } else if userId in event.waitlist {
        event := event.(waitlist := RemoveFirst(event.waitlist, userId));
        var _ := eventRepo.Update(event);
        r := Success(RemovedFromWaitlist);
      } else {
        return Failure(NotAssociated);
      }
      if AllWellFormed(old(eventRepo.events)) {
        WriteBackKeepsAllWellFormed(old(eventRepo.events), eventId, Withdraw(before, userId), userId);
      }
    }

    /** `get_user_events`: NotFound for an unknown user; otherwise the stored
        events, in store order, whose registered list holds the user. */
    method GetUserEvents(userId: string) returns (r: Result<seq<Event>>)
      requires Valid()
      ensures userId !in userRepo.users ==> r == Failure(NotFound)
      ensures userId in userRepo.users ==> r == Success(RegisteredFor(eventRepo.ListAll(), userId))
    {
      if !userRepo.Exists(userId) {
        return Failure(NotFound);
      }
      var all := eventRepo.ListAll();
      var registeredEvents := [];
      for i := 0 to |all|
        invariant registeredEvents == RegisteredFor(all[..i], userId)
      {
        RegisteredForStep(all, i, userId);
        if userId in all[i].registered {
          registeredEvents := registeredEvents + [all[i]];
        }
      }
      assert all[..|all|] == all;
      r := Success(registeredEvents);
    }
  }
}
