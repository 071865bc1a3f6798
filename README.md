# Event admission and club membership for the FlaskForge community platform

This project models the part of the platform's web application that decides
who gets a seat at an event, and the two smaller handlers that use the same store.

- **Registering for an event** (`register_for_event`). The event is looked up under a row lock. If it is missing the answer is *not found*. Its registrations are counted, and if the count has reached the capacity the answer is *event full*. Otherwise a registration row is inserted: paid at once when the event is free, pending payment otherwise. A breach of the `unique_user_event` constraint becomes *already registered*. Any other database error becomes a generic failure. Both failures roll the transaction back. The price is read once more after the commit, to pick the message; an error there also yields the generic failure, but the committed row stays.
- **Joining a club** (`join_club`). This follows the same pattern with no capacity bound. A missing club is a 404. The `unique_user_club` constraint turns a second join into *already a member*.
- **Creating a club** (`create_club`). The club is committed first. A second commit then promotes a regular user to club manager and makes the creator a member.
- **`Event.available_spots`**, and the **role gates** `require_role` and `admin_required`.

The database is an in-memory store held by the class `Platform.Store`. The registration and membership tables are append-only in this core, so they are sequences of rows in insertion order. Events, users and clubs are maps keyed by id; a user's role is updated in place by `create_club`. Each request is one atomic step, which is what the row lock (`with_for_update`) buys the application under concurrency. A rollback leaves the store as it was. The uniqueness constraints are checked as lookups on the table (`Tables.Contains`) at the point where the insert would fail. An exception other than a uniqueness breach, such as a database failure or the session refusing to begin a transaction, cannot be predicted, so each handler takes it as a parameter: `RegisterFault` (inside the transaction, or after its commit) for registration, a flag for joining, and `CreateFault` for the two commits of club creation.

The store's invariant `Platform.Store.Valid` says four things:
- no event holds more registrations than its capacity;
- there is at most one registration per (user, event) and at most one membership per (user, club);
- every row refers to an existing user, event or club;
- club ids are handed out fresh.

Every handler preserves it. `Scenarios` replays concrete request sequences and proves their outcomes from the handlers' contracts alone:
- the last seat taken by one of two users;
- a double click;
- a duplicate request on an event that has filled;
- five users filling five seats;
- a failed transaction followed by a retry;
- a failure after the commit, whose retry is a duplicate;
- a club creator who becomes a manager.

Modules and files:
- `tables.dfy` (`Tables`): the rows, the count and lookup queries, and the uniqueness lemmas.
- `auth.dfy` (`Auth`): the role gates.
- `platform.dfy` (`Platform`): the store and its handlers.
- `scenarios.dfy` (`Scenarios`): the concrete request sequences.

What the code does at its edges:
- The code has no separate transient-failure outcome that carries retry advice. Every exception other than `IntegrityError` ends in the same generic error message (`RegistrationFailed`, `JoinFailed`).
- A successful registration reports its payment status. The code reports no registration id, so the model does not either.
- In `register_for_event` the generic error does not always mean nothing was written: an exception raised after the commit (app.py:507) is caught by the same handler, and its rollback has nothing left to undo.
- A missing event is handled (`EventNotFound`), not assumed away. A missing club is a 404 raised before the `try`, so in `JoinClub` it takes precedence over a database fault.
- `create_club` commits twice, so a failure at the second commit leaves a club whose creator is neither a member nor promoted. Failures do not leave everything unchanged there, and `CreateClub` states that partial effect.

## Model

| member | source | states |
|---|---|---|
| Tables.InitialPaymentStatus | app.py:503 | a new registration is `Paid` exactly when the price is zero and `Pending` exactly when it is positive; `Refunded` is never produced |
| Tables.Contains | app.py:146 | the uniqueness check finds a row with the key exactly when some row of the table carries that key |
| Tables.Occurrences | app.py:494 | the count query never exceeds the table size and is positive exactly when some row carries the key |
| Tables.OccurrencesIsMultiplicity | app.py:494 | the count equals the multiplicity of the key in the multiset of the table's key column (an independent definition of the count) |
| Tables.OccurrencesAppend | app.py:500-504 | inserting one row raises the count of its own key by exactly one and leaves every other key's count unchanged |
| Tables.UniqueAtMostOnce | app.py:145-146 | under a uniqueness constraint no key is counted more than once: at most one registration per (user, event) and one membership per (user, club) |
| Tables.UniqueAppend | app.py:154-155 | inserting a row whose key is absent keeps a uniqueness constraint satisfied |
| Auth.RequireRole | app.py:59-70 | access is granted exactly to an authenticated user whose role is the required one or `admin`; exactly the anonymous are sent to the login page |
| Auth.AdminRequired | app.py:72-79 | access is granted exactly to an authenticated administrator; nobody is sent to the login page, the anonymous included |
| Auth.AdminPassesEveryGate | app.py:59-79 | whoever passes the admin gate passes every role gate |
| Auth.RequireAdminMatchesAdminGate | app.py:59-79 | requiring the admin role grants exactly whom the admin gate grants; the two differ only in sending the anonymous to login versus the dashboard |
| Platform.AdmissionKeepsCapacity | app.py:494-504 | inserting into an event whose count is below its capacity keeps every event's count within its capacity |
| Platform.AdmissionKeepsConsistency | app.py:494-504 | an admission that passes the capacity check and the `unique_user_event` check preserves both the capacity invariant and one-registration-per-pair, with the foreign keys |
| Platform.ClubCreationKeepsConsistency | app.py:452-471 | a club committed under a fresh id, with or without its creator's membership row, keeps the membership table unique and its references valid; the creator's pair cannot already exist |
| Platform.Promoted | app.py:461-463 | after creating a club the creator is never a regular user: a regular user becomes a club manager, and club managers and administrators keep their role |
| Platform.Store.AvailableSpots | app.py:132-135 | the spots left never exceed the capacity and are never negative while the store is valid |
| Platform.Store.RegisterForEvent | app.py:478-520 | a fault inside the transaction yields a failure and writes nothing; otherwise, in the code's order, a missing event yields not-found, a full event (no spots left) yields event-full even for a registered user, a registered user yields already-registered, and otherwise the row is committed and the answer is `Admitted` with the price-determined status, or the generic failure when the fault strikes after the commit; exactly the committed requests add a row, exactly one, raising that event's count by one and no other; the invariant is preserved |
| Platform.Store.Insert | app.py:500-505 | inserting a row that passed the capacity and duplicate checks appends exactly that row, raises its event's count by one and no other, and keeps the invariant |
| Platform.Store.JoinClub | app.py:522-549 | a missing club yields not-found before any fault; otherwise a fault fails, an existing membership yields already-member, and otherwise exactly one membership row is added; membership holds afterwards exactly when it held before or the join succeeded |
| Platform.Store.CreateClub | app.py:447-476 | a failed first commit changes nothing; otherwise the club is stored under a fresh id with the user as manager; a failed second commit leaves only the club; a full success also promotes a regular user, adds exactly the creator's membership, and lets the creator pass the club-manager gate |
| Scenarios.LastSeat | app.py:494-497 | with one seat and two users, the first is admitted as paid and the second is told the event is full |
| Scenarios.DoubleClick | app.py:513-515 | the same user registering twice for a paid event is admitted as pending, then told already-registered, and the event holds one registration |
| Scenarios.RegisterInBegunSession | app.py:485-486 | as written, opening the transaction in a session the user load already began fails inside the `try`: both users get the generic error, nothing is written and the seat stays free |
| Scenarios.FullBeforeDuplicate | app.py:494-497 | a registered user retrying on an event that has filled is told it is full, not already-registered |
| Scenarios.AdmitFree | app.py:494-504 | a user with no registration at a free event with room is admitted as paid, and exactly that row is added |
| Scenarios.AdmitInTurn | app.py:494-504 | n distinct users registering for a free event with room for them all are all admitted as paid, filling n seats |
| Scenarios.FillToCapacity | app.py:494-504 | five users fill a five-seat event exactly, a sixth is told it is full, and no spots remain |
| Scenarios.FailureRollsBack | app.py:516-518 | a failed transaction writes nothing, so the seat is still there for the retry |
| Scenarios.FailureAfterCommit | app.py:505-518 | a failure after the commit reports an error yet keeps the seat: the retry is already-registered and one of two seats remains |
| Scenarios.CreateThenJoin | app.py:461-470 | a club's creator is its member, so joining again yields already-member, and the creator now passes the club-manager gate |

## Findings

| source | as written | input that shows it | evidently intended | confidence | as-written member | corrected member |
|---|---|---|---|---|---|---|
| app.py:479-486 | `with db.session.begin():` runs in the scoped session in which `login_required` has already loaded the user (app.py:55-56), so a transaction is already begun and `begin()` raises; the generic handler at app.py:516-518 catches it and nothing is written | any logged-in user posting a valid form to a free event with room, e.g. user 1 on a one-seat free event | the registration is checked and admitted inside one transaction | plausible, depends on the session library's behaviour; not executed | Scenarios.RegisterInBegunSession | Scenarios.LastSeat |

## Left out

- Flask routing, templates, flashed messages and redirects are not modelled. Each handled outcome is a datatype constructor standing for one message.
- `CreateFailed` stands for an unhandled server error, not a message: `create_club` has no `try` (app.py:449-476), so a failed commit propagates. Likewise `Club.query.get_or_404` (app.py:530) runs outside the `try` of `join_club`; a database fault during that lookup is an unhandled error and is not modelled, and `JoinFailed` covers only faults inside the `try`.
- CSRF validation and form validation are not modelled; they belong to the request layer. An invalid form on `register_for_event`, `join_club` or `create_club` re-renders or redirects without touching the store.
- The form bounds on new events (capacity 1 to 10000, price 0 to 1000) appear only as the store constructor's requirement that capacities are at least 1, and as prices being non-negative cents. `create_event` is not part of this model: events are given when the store is built.
- Flask-Login sessions and password hashing are foreign calls. The logged-in user's id is passed in, and the `login_required` guarantee that this user exists is a precondition.
- Row locking (`with_for_update`) and real concurrency are not modelled. Each request is one atomic step, so interleavings inside a transaction are not represented.
- Exceptions other than a uniqueness breach are a fault parameter, not a model of their causes. In `RegisterForEvent` a fault inside the transaction overrides every branch, because the lookup itself sits inside the `try`; a fault after the commit can only strike once the row is written, since the not-found and event-full branches return from inside the transaction.
- `register_for_event` calls `db.session.begin()` (app.py:486) after `login_required` (app.py:479) has loaded the user with `User.query.get` (app.py:55-56) in the same session, and app.py:27-28 and 38 set no session option that would allow a nested begin. As written, that `begin()` plausibly raises for every logged-in request; this is recorded under "## Findings". `RegisterForEvent` models both: the `InTransaction` fault is the code as written, and `NoFault` is the evidently intended admission the rest of the model proves things about.
- `IntegrityError` is modelled only as a breach of the two uniqueness constraints. Foreign-key breaches cannot occur, because the user and the event or club exist when the insert runs.
- Stripe is not modelled. The payment step is a stub, and `stripe_payment_id` is never written.
- Registration ids, `registered_at` and `joined_at` timestamps, and the descriptive columns of events and clubs are not modelled, because no decision reads them.
- The `role` column is a free string in the schema, but only `user`, `club_manager` and `admin` are ever written. It is modelled as a three-valued datatype.
- The listing, search, dashboard and detail routes are queries against the current time and page statistics, and are not modelled. So are user sign-up, login and logout, the contact form, and the demo-data seeding script.
