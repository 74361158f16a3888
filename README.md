# Event registration engine — Dafny model

This project models the core of an event-registration backend. Users register for events. Each event has a finite capacity and may have a waitlist. For every (event, user) pair, the registration engine moves the user between three states: not associated, registered, and waitlisted. It enforces capacity, falls back to the waitlist when the event is full, and promotes the head of the waitlist (first in, first out) when a registered user leaves.

Around the engine sit two in-memory keyed stores (users and events), the user and event services that create and look up entities, the `userId`/`name` field validator, and the normalisation of an event's creation payload.

Modules, one per source file:

- `Common`: the `Option`/`Result` types and the error kinds. The backend raises `BusinessRuleViolationError` for already-associated, capacity-full and not-associated alike, and distinguishes them only by message text. The model keeps three separate constructors.
- `Seqs`: list helpers: duplicate-freedom, disjointness, Python's `list.remove`, and `list(d.values())` over a key order.
- `UserModel`: the `User` record and `validate_not_empty`. The subset type `ValidUser` holds the users whose two fields pass the validator; the user store and the user service are typed over it, as Pydantic only ever hands them validated records. Whitespace is defined as Python's `str.isspace`, and `str.strip` is modelled as trimming both ends.
- `EventModel`: the `Event` record, the creation payload, the normalisation done by `Event.__init__`, and the engine's invariants (`WellFormed`, `WaitlistOnlyWhenFull`).
- `UserStore`, `EventStore`: the two repositories, as classes. Each holds a `map` field and the key insertion order, which is the order a Python dictionary iterates in. `create`/`update` are methods with `modifies this`. `get`/`exists`/`list_all` are functions with `reads this`.
- `UserRules`, `EventRules`: the user and event services. Each is a class over its injected store.
- `Registration`: the engine. `Enroll` and `Withdraw` state one transition on an event value, and lemmas prove the invariants about them. `RegistrationService` runs the transitions against the stores, with the steps of the source: look up, edit the lists, write back with `update`. Its `ensures` tie the new store to `Enroll`/`Withdraw`.

The store-wide invariant is that every stored event is well-formed. The repositories do not enforce it: they accept anything. Creation through `EventService.CreateEvent` establishes it, and `RegisterUser`/`UnregisterUser` preserve it.

## Model

| member | source | states |
|---|---|---|
| `Seqs.FirstIndex` | backend/domains/registrations/service.py:76 | the position `list.remove` acts on: the element sits there and does not occur before it |
| `Seqs.RemoveFirst` | backend/domains/registrations/service.py:74-76 | `list.remove` of a present element deletes its first occurrence: the elements before it and after it keep their order, and the list is one shorter. Python raises `ValueError` for an absent element; the backend only calls `remove` after checking membership, so the model leaves the list as it is in that case |
| `Seqs.RemoveFirstMembers` | backend/domains/registrations/service.py:96-98 | removal adds nothing, and every element other than the removed one stays in the list |
| `Seqs.RemoveFirstNoDups` | backend/domains/registrations/service.py:96-98 | a duplicate-free list stays duplicate-free and no longer holds the removed element at all |
| `Seqs.DistinctCard` | backend/domains/events/repository.py:34 | a duplicate-free key order has exactly as many entries as the key set, which is why `list_all` yields one value per key |
| `Seqs.ValuesAt` | backend/domains/events/repository.py:34 | listing the values at a key order gives one value per key, position by position |
| `Seqs.ValuesAtCoversMap` | backend/domains/users/repository.py:29 | when the key order lists every key once, `list(d.values())` has one entry per key and contains every stored value |
| `UserModel.ValidateNotEmpty` | backend/domains/users/models.py:13-17 | accepted exactly when the string holds a non-whitespace character; an accepted string comes back unchanged (not trimmed); rejection is a validation error |
| `UserModel.StripEmpty` | backend/domains/users/models.py:15 | `s.strip() == ""` holds exactly when `s` is empty or whitespace only |
| `UserModel.TrimStartEmpty` | backend/domains/users/models.py:15 | stripping leading whitespace leaves nothing exactly when the string has no visible character |
| `UserModel.NewUser` | backend/domains/users/models.py:11-17 | the validator applies to `userId` and to `name` independently; a user is built exactly when both hold a visible character, with both fields unchanged; the result has the type `ValidUser`, the only kind of user the stores and the user service accept |
| `UserModel.NewUserRejectsEmpty` | backend/domains/users/models.py:15-16 | an empty `userId` or an empty `name` is rejected |
| `UserModel.NewUserRejectsBlank` | backend/domains/users/models.py:15-17 | whitespace-only fields are rejected; a padded id is accepted and kept with its padding |
| `EventModel.NewEvent` | backend/domains/events/models.py:20-33 | a truthy `title` overrides `name`, otherwise `name` is kept; a present `waitlistEnabled` key overrides `hasWaitlist`; `hasWaitlist` alone is kept; neither gives `False`; `registered` and `waitlist` are taken as given and default to empty; `eventId`, `title`, `capacity`, `description`, `date`, `location`, `organizer` and `status` pass through unchanged |
| `EventModel.NormalisationExamples` | backend/domains/events/models.py:26-32 | an empty title does not override `name`; a `null` `waitlistEnabled` gives `hasWaitlist = None`, which does not enable the waitlist |
| `EventModel.Cleared` | backend/domains/events/service.py:28-29 | creation empties both lists and keeps every other field |
| `EventModel.ClearedWellFormed` | backend/domains/events/service.py:18-31 | an event that passed the capacity check, with its lists cleared, meets the capacity, duplicate, disjointness and waitlist-only-when-full invariants |
| `EventStore.EventRepository.constructor` | backend/domains/events/repository.py:10-12 | the store starts empty |
| `EventStore.EventRepository.Create` | backend/domains/events/repository.py:14-17 | stores the event under its id without a duplicate check (silent overwrite); afterwards `get` returns it and `exists` holds |
| `EventStore.EventRepository.Get` | backend/domains/events/repository.py:19-21 | `None` exactly for an absent id, otherwise the stored event |
| `EventStore.EventRepository.Exists` | backend/domains/events/repository.py:23-25 | holds exactly when `get` finds the id |
| `EventStore.EventRepository.Update` | backend/domains/events/repository.py:27-30 | writes the event under its id; every other entry reads back as before |
| `EventStore.EventRepository.ListAll` | backend/domains/events/repository.py:32-34 | exactly one stored event per key, in insertion order, every stored event included |
| `UserStore.UserRepository.constructor` | backend/domains/users/repository.py:10-12 | the store starts empty |
| `UserStore.UserRepository.Create` | backend/domains/users/repository.py:14-17 | stores the user under its id, silently overwriting; other users unchanged; the key set only grows; afterwards `get` returns the user and `exists` holds |
| `UserStore.UserRepository.Get` | backend/domains/users/repository.py:19-21 | `None` exactly for an absent id, otherwise the stored user |
| `UserStore.UserRepository.Exists` | backend/domains/users/repository.py:23-25 | holds exactly when `get` finds the id |
| `UserStore.UserRepository.ListAll` | backend/domains/users/repository.py:27-29 | exactly one stored user per key, in insertion order, every stored user included |
| `UserRules.UserService.constructor` | backend/domains/users/service.py:11-13 | the service uses the store it is given |
| `UserRules.UserService.CreateUser` | backend/domains/users/service.py:15-23 | a stored id fails with AlreadyExists and changes nothing; otherwise the user is stored unchanged under its id and returned, after which `user_exists` holds and `get_user` returns it |
| `UserRules.UserService.GetUser` | backend/domains/users/service.py:25-32 | NotFound exactly for an absent id, otherwise the stored user |
| `UserRules.UserService.UserExists` | backend/domains/users/service.py:34-36 | holds exactly when `get_user` succeeds |
| `EventRules.Snapshot` | backend/domains/events/service.py:45-50 | the snapshot carries the event's lists and capacity; `availableSpots + len(registered) == capacity`; `availableSpots` lies between 0 and capacity for a well-formed event, and is 0 exactly when the event is full |
| `EventRules.FreshEventAllSpotsFree` | backend/domains/events/service.py:28-31 | right after creation, `availableSpots == capacity` |
| `EventRules.EventService.constructor` | backend/domains/events/service.py:11-13 | the service uses the store it is given |
| `EventRules.EventService.CreateEvent` | backend/domains/events/service.py:15-31 | capacity <= 0 is a validation error and is checked before duplicates; a stored id fails with AlreadyExists; both failures change nothing; on success the event is stored with empty lists, is well-formed, and its snapshot shows every slot free |
| `EventRules.EventService.GetEvent` | backend/domains/events/service.py:33-40 | NotFound exactly for an absent id, otherwise the stored event |
| `EventRules.EventService.GetEventRegistrations` | backend/domains/events/service.py:42-50 | NotFound exactly for an absent id, otherwise the snapshot of the stored event, never negative for a well-formed event |
| `Registration.Enroll` | backend/domains/registrations/service.py:33-62 | AlreadyAssociated exactly when the user is registered or waitlisted, whatever the capacity; CapacityFull exactly when the event is full and has no waitlist; otherwise "registered" (append to `registered`, waitlist unchanged) exactly when there is a free slot, else "waitlisted" (append to `waitlist`, `registered` unchanged); nothing but the lists changes |
| `Registration.Withdraw` | backend/domains/registrations/service.py:73-108 | NotAssociated exactly for a user in neither list; a registered user is removed and, if anyone waits, the waitlist head is promoted to the end of `registered`; otherwise the outcome is "unregistered"; a waitlisted user is removed from the waitlist with `registered` unchanged |
| `Registration.EnrollPreservesWellFormed` | backend/domains/registrations/service.py:34-57 | registering keeps `len(registered) <= capacity`, both lists duplicate-free and the lists disjoint |
| `Registration.WithdrawPreservesWellFormed` | backend/domains/registrations/service.py:74-102 | unregistering, with or without promotion, keeps capacity, duplicate-freedom and disjointness |
| `Registration.TransitionsPreserveWaitlistOnlyWhenFull` | backend/domains/registrations/service.py:40-102 | both transitions keep "someone waits only behind a full event that has a waitlist" |
| `Registration.PromotionKeepsCount` | backend/domains/registrations/service.py:74-87 | promotion leaves `len(registered)` unchanged and shortens the waitlist by one; the promoted user is registered and no longer waits; the leaving user is in neither list |
| `Registration.WithdrawDisassociates` | backend/domains/registrations/service.py:73-102 | after a successful unregister the user holds neither a slot nor a waitlist place |
| `Registration.WriteBackKeepsAllWellFormed` | backend/domains/registrations/service.py:43-99 | writing back the result of a successful register or unregister keeps every stored event within the invariants |
| `Registration.EnrollTwiceFails` | backend/domains/registrations/service.py:33-37 | registering the same user a second time always fails with AlreadyAssociated |
| `Registration.WithdrawUnassociatedFails` | backend/domains/registrations/service.py:104-108 | unregistering a user who is in neither list fails with NotAssociated |
| `Registration.FifoPromotion` | backend/domains/registrations/service.py:79-87 | with waitlist [a, b], the first freed slot goes to a and the next to b |
| `Registration.CapacityOneNoWaitlist` | backend/domains/registrations/service.py:40-62 | capacity 1 without a waitlist: the first user registers, the second is refused with CapacityFull |
| `Registration.CapacityOneWithWaitlist` | backend/domains/registrations/service.py:40-93 | capacity 1 with a waitlist: the second user waits and is promoted when the first leaves, leaving the waitlist empty |
| `Registration.RegisteredFor` | backend/domains/registrations/service.py:118-125 | an event is listed exactly when it is among the events and the user is in its `registered` list; waitlist membership does not count; the listing never has more entries than the events it filters |
| `Registration.RegisteredForStep` | backend/domains/registrations/service.py:120-123 | one more loop iteration appends the event exactly when the user is in its `registered` list |
| `Registration.RegisteredForAppend` | backend/domains/registrations/service.py:119-123 | filtering distributes over concatenation, so the listing keeps the store's order |
| `Registration.WaitlistedOnlyListsNothing` | backend/domains/registrations/service.py:121-125 | a user registered nowhere (waitlisted or not) gets an empty list, not an error |
| `Registration.RegistrationService.constructor` | backend/domains/registrations/service.py:13-16 | the engine uses the two stores it is given |
| `Registration.RegistrationService.RegisterUser` | backend/domains/registrations/service.py:18-62 | an unknown user is NotFound, checked before the event; then an unknown event is NotFound; otherwise the result and the new store follow `Enroll` on the stored event; failures change nothing, no other event changes, key order is kept, and every event stays well-formed |
| `Registration.RegistrationService.UnregisterUser` | backend/domains/registrations/service.py:64-108 | an unknown event is NotFound, and the user's existence is not checked; otherwise the result and the new store follow `Withdraw` on the stored event; failures change nothing, no other event changes, and every event stays well-formed |
| `Registration.RegistrationService.GetUserEvents` | backend/domains/registrations/service.py:110-125 | NotFound for an unknown user; otherwise exactly the stored events, in `list_all` order, whose `registered` list holds the user |

## Left out

- HTTP routes (`routes.py` in each domain) are left out. They map errors to 400/404/409, and the register route tells "already registered" apart by a substring of the message. This is transport, not engine behaviour.
- Application wiring and deployment (`backend/main.py`, `backend/core/dependencies.py`, `infrastructure/`) are left out. Module-level singletons become constructors that take the stores.
- Exception classes and request/response records (`backend/core/exceptions.py`, `backend/domains/registrations/models.py`) become the `Error`, `Outcome` and `Registrations` datatypes. Human-readable messages are not modelled.
- Pydantic's own parsing and type coercion is left out. Only the two explicit hooks are modelled: `validate_not_empty` and `Event.__init__`.
- Python object aliasing is not modelled. `get` hands out the stored object, and the engine edits its lists in place before `update`. The model reads the event, edits a copy, and writes it back, which is equivalent without concurrency. `create_event` also clears the lists of the caller's own object; the model only captures the stored copy.
- Concurrency is left out; the source has none.
- The specification and the code differ in a few places. The model follows the code:
  - When `waitlistEnabled` or `hasWaitlist` is present with the value `null`, `hasWaitlist` becomes `None` rather than `False`. It is still treated as no waitlist.
  - The listing of a user's events follows the store's insertion order rather than an unspecified one.
  - Capacity > 0 is only checked by `create_event`. The repositories accept any event, so the store-wide invariant holds for events created through the service.
