/**
 * The store behind the web platform and the three request handlers that
 * change it: registering for an event, joining a club and creating a club.
 * Each request runs as one atomic step; a rolled-back transaction leaves the
 * store as it was. A `fault` argument stands for any exception other than a
 * uniqueness violation, such as a database failure (a lock timeout, a lost
 * connection, a deadlock) or the session refusing to begin a transaction.
 */
module Platform {
  import opened Tables
  import opened Auth

  /** A row of the club table: the user recorded as its manager. */
  datatype Club = Club(managerId: UserId)

  /** What a registration request ends in; each maps to one flashed message. */
  datatype RegistrationOutcome =
    | Admitted(status: PaymentStatus)
    | EventNotFound
    | EventFull
    | AlreadyRegistered
    | RegistrationFailed

  /** What a join request ends in. */
  datatype JoinOutcome = Joined | ClubNotFound | AlreadyMember | JoinFailed

  /**
   * Where, if anywhere, the database fails while a registration is handled:
   * inside the transaction, or after its commit when the event's price is
   * read again to choose the message.
   */
  datatype RegisterFault = NoFault | InTransaction | AfterCommit

  /** Whether a registration request left its row in the table. */
  function RowCommitted(fault: RegisterFault, outcome: RegistrationOutcome): bool
  {
    outcome.Admitted? || (fault == AfterCommit && outcome == RegistrationFailed)
  }

  /** Where, if anywhere, the database fails while a club is being created. */
  datatype CreateFault = CreateSucceeds | ClubCommitFails | MembershipCommitFails

  /** What a club-creation request ends in. */
  datatype CreateOutcome = Created(clubId: ClubId) | CreateFailed

  /** No event holds more registrations than its capacity. */
  ghost predicate WithinCapacity(events: map<EventId, Event>, rows: seq<Registration>)
  {
    forall e :: e in events ==> Occurrences(rows, EventOf, e) <= events[e].capacity
  }

  /** Admitting a row into an event that still has room keeps every event within capacity. */
  lemma AdmissionKeepsCapacity(events: map<EventId, Event>, rows: seq<Registration>, row: Registration)
    requires WithinCapacity(events, rows)
    requires row.eventId in events
    requires Occurrences(rows, EventOf, row.eventId) < events[row.eventId].capacity
    ensures WithinCapacity(events, rows + [row])
  {
    forall e | e in events
      ensures Occurrences(rows + [row], EventOf, e) <= events[e].capacity
    {
      OccurrencesAppend(rows, row, EventOf, e);
    }
  }

  /**
   * The registration table within capacity, under its `unique_user_event`
   * constraint, and referring only to existing users and events.
   */
  ghost predicate RegistrationsConsistent(userIds: set<UserId>, events: map<EventId, Event>, rows: seq<Registration>)
  {
    && WithinCapacity(events, rows)
    && UniqueOn(rows, UserEvent)
    && forall i :: 0 <= i < |rows| ==> rows[i].userId in userIds && rows[i].eventId in events
  }

  /**
   * The membership table under its `unique_user_club` constraint and referring
   * only to existing users and clubs; every club id lies below the next one handed out.
   */
  ghost predicate MembershipsConsistent(userIds: set<UserId>, clubs: map<ClubId, Club>, nextClubId: ClubId, rows: seq<Membership>)
  {
    && UniqueOn(rows, UserClub)
    && (forall i :: 0 <= i < |rows| ==> rows[i].userId in userIds && rows[i].clubId in clubs)
    && (forall c :: c in clubs ==> c < nextClubId && clubs[c].managerId in userIds)
  }

  /**
   * An admission the controller lets through (room left, no row for the pair
   * yet, existing user and event) keeps the registration table consistent.
   */
  lemma AdmissionKeepsConsistency(userIds: set<UserId>, events: map<EventId, Event>, rows: seq<Registration>, row: Registration)
    requires RegistrationsConsistent(userIds, events, rows)
    requires row.userId in userIds && row.eventId in events
    requires Occurrences(rows, EventOf, row.eventId) < events[row.eventId].capacity
    requires !Contains(rows, UserEvent, UserEvent(row))
    ensures RegistrationsConsistent(userIds, events, rows + [row])
  {
    AdmissionKeepsCapacity(events, rows, row);
    UniqueAppend(rows, row, UserEvent);
  }

  /**
   * Committing a new club under a fresh id keeps the membership table
   * consistent, and so does then adding its creator as a member.
   */
  lemma ClubCreationKeepsConsistency(userIds: set<UserId>, clubs: map<ClubId, Club>, nextClubId: ClubId,
                                     rows: seq<Membership>, user: UserId)
    requires MembershipsConsistent(userIds, clubs, nextClubId, rows)
    requires user in userIds
    ensures nextClubId !in clubs
    ensures MembershipsConsistent(userIds, clubs[nextClubId := Club(user)], nextClubId + 1, rows)
    ensures !Contains(rows, UserClub, (user, nextClubId))
    ensures MembershipsConsistent(userIds, clubs[nextClubId := Club(user)], nextClubId + 1,
                                  rows + [Membership(user, nextClubId)])
  {
    UniqueAppend(rows, Membership(user, nextClubId), UserClub);
  }

  /** The role a club's creator holds afterwards: a regular user becomes a club manager. */
  function Promoted(r: Role): (p: Role)
    ensures p != RegularUser
    ensures r == RegularUser ==> p == ClubManager
    ensures r != RegularUser ==> p == r
  {
    if r == RegularUser then ClubManager else r
  }

  class Store {
    var users: map<UserId, Role>
    var events: map<EventId, Event>
    var registrations: seq<Registration>
    var clubs: map<ClubId, Club>
    var nextClubId: ClubId
    var memberships: seq<Membership>

    /**
     * The constraints every committed state satisfies: capacity, the two
     * uniqueness constraints, the foreign keys, and fresh club ids.
     */
    ghost predicate Valid()
      reads this
    {
      && RegistrationsConsistent(users.Keys, events, registrations)
      && MembershipsConsistent(users.Keys, clubs, nextClubId, memberships)
    }

    /** A store holding the given users and events and nothing else. */
    constructor (users: map<UserId, Role>, events: map<EventId, Event>)
      requires forall e :: e in events ==> events[e].capacity >= 1
      ensures Valid()
      ensures this.users == users && this.events == events
      ensures registrations == [] && clubs == map[] && memberships == [] && nextClubId == 1
    {
      this.users := users;
      this.events := events;
      registrations := [];
      clubs := map[];
      nextClubId := 1;
      memberships := [];
    }

    /** The number of registrations for an event. */
    function Occupancy(eventId: EventId): nat
      reads this
    {
      Occurrences(registrations, EventOf, eventId)
    }

    /** Whether the user holds a registration for the event. */
    function IsRegistered(user: UserId, eventId: EventId): bool
      reads this
    {
      Contains(registrations, UserEvent, (user, eventId))
    }

    /** Whether the user is a member of the club. */
    function IsMember(user: UserId, clubId: ClubId): bool
      reads this
    {
      Contains(memberships, UserClub, (user, clubId))
    }

    /** `Event.available_spots`: the capacity left, never negative in a valid store. */
    function AvailableSpots(eventId: EventId): (spots: int)
      reads this
      requires eventId in events
      ensures spots <= events[eventId].capacity
      ensures Valid() ==> spots >= 0
    {
      events[eventId].capacity - Occupancy(eventId)
    }

    /**
     * `register_for_event`: look the event up, refuse it when full, insert a
     * registration, and turn a uniqueness violation into AlreadyRegistered.
     * Every outcome but Admitted rolls back, except a failure after the commit,
     * which reports an error while the row stays.
     */
    method RegisterForEvent(user: UserId, eventId: EventId, fault: RegisterFault) returns (outcome: RegistrationOutcome)
      requires Valid() && user in users
      modifies this`registrations
      ensures Valid()
      ensures fault == InTransaction ==> outcome == RegistrationFailed
      ensures fault != InTransaction && eventId !in events ==> outcome == EventNotFound
      ensures fault != InTransaction && eventId in events ==>
        (outcome == EventFull <==> old(AvailableSpots(eventId)) == 0)
      ensures fault != InTransaction && eventId in events && old(Occupancy(eventId)) < events[eventId].capacity ==>
        outcome == if old(IsRegistered(user, eventId)) then AlreadyRegistered
                   else if fault == AfterCommit then RegistrationFailed
                   else Admitted(InitialPaymentStatus(events[eventId].priceCents))
      ensures RowCommitted(fault, outcome) ==>
        eventId in events
        && registrations == old(registrations) + [Registration(user, eventId, InitialPaymentStatus(events[eventId].priceCents))]
      ensures !RowCommitted(fault, outcome) ==> registrations == old(registrations)
      ensures forall e :: Occupancy(e) == old(Occupancy(e)) + (if RowCommitted(fault, outcome) && e == eventId then 1 else 0)
    {
      if fault == InTransaction {
        return RegistrationFailed;
      }
      if eventId !in events {
        return EventNotFound;
      }
      var event := events[eventId];
      var current := Occurrences(registrations, EventOf, eventId);
      if current >= event.capacity {
        return EventFull;
      }
      var row := Registration(user, eventId, InitialPaymentStatus(event.priceCents));
      if Contains(registrations, UserEvent, UserEvent(row)) {
        // the unique_user_event constraint rejects the insert; the transaction rolls back
        return AlreadyRegistered;
      }
      Insert(row);
      if fault == AfterCommit {
        // the row is committed; re-reading the price for the message fails and the rollback undoes nothing
        return RegistrationFailed;
      }
      outcome := Admitted(row.paymentStatus);
    }

    /**
     * Adding and committing a registration row that passed the capacity and
     * uniqueness checks: its event's count rises by one and no other changes.
     */
    method Insert(row: Registration)
      requires Valid() && row.userId in users && row.eventId in events
      requires Occupancy(row.eventId) < events[row.eventId].capacity
      requires !IsRegistered(row.userId, row.eventId)
      modifies this`registrations
      ensures Valid()
      ensures registrations == old(registrations) + [row]
      ensures forall e :: Occupancy(e) == old(Occupancy(e)) + (if e == row.eventId then 1 else 0)
    {
      AdmissionKeepsConsistency(users.Keys, events, registrations, row);
      forall e ensures Occurrences(registrations + [row], EventOf, e) == Occupancy(e) + (if e == row.eventId then 1 else 0) {
        OccurrencesAppend(registrations, row, EventOf, e);
      }
      registrations := registrations + [row];
    }

    /**
     * `join_club`: a missing club is a 404; otherwise insert a membership and
     * turn a uniqueness violation into AlreadyMember. Nothing bounds a club's size.
     */
    method JoinClub(user: UserId, clubId: ClubId, fault: bool) returns (outcome: JoinOutcome)
      requires Valid() && user in users
      modifies this`memberships
      ensures Valid()
      ensures clubId !in clubs ==> outcome == ClubNotFound
      ensures clubId in clubs && fault ==> outcome == JoinFailed
      ensures clubId in clubs && !fault ==>
        outcome == if old(IsMember(user, clubId)) then AlreadyMember else Joined
      ensures memberships == if outcome == Joined then old(memberships) + [Membership(user, clubId)]
                             else old(memberships)
      ensures IsMember(user, clubId) <==> old(IsMember(user, clubId)) || outcome == Joined
    {
      if clubId !in clubs {
        return ClubNotFound;
      }
      if fault {
        return JoinFailed;
      }
      var row := Membership(user, clubId);
      if Contains(memberships, UserClub, UserClub(row)) {
        // the unique_user_club constraint rejects the insert; the session rolls back
        return AlreadyMember;
      }
      UniqueAppend(memberships, row, UserClub);
      memberships := memberships + [row];
      assert memberships[|memberships| - 1] == row;
      outcome := Joined;
    }

    /**
     * `create_club`: commit a new club managed by the user, then promote a
     * regular user to club manager and make the creator a member in a second
     * commit. A failure of the second commit leaves the club in place.
     */
    method CreateClub(user: UserId, fault: CreateFault) returns (outcome: CreateOutcome)
      requires Valid() && user in users
      modifies this`clubs, this`nextClubId, this`users, this`memberships
      ensures Valid()
      ensures outcome.Created? <==> fault == CreateSucceeds
      ensures fault == ClubCommitFails ==>
        clubs == old(clubs) && nextClubId == old(nextClubId) && users == old(users) && memberships == old(memberships)
      ensures fault != ClubCommitFails ==>
        old(nextClubId) !in old(clubs) && clubs == old(clubs)[old(nextClubId) := Club(user)]
        && nextClubId == old(nextClubId) + 1
      ensures fault == MembershipCommitFails ==> users == old(users) && memberships == old(memberships)
      ensures fault == CreateSucceeds ==>
        outcome.clubId == old(nextClubId)
        && users == old(users)[user := Promoted(old(users)[user])]
        && memberships == old(memberships) + [Membership(user, outcome.clubId)]
      ensures fault == CreateSucceeds ==>
        IsMember(user, outcome.clubId) && RequireRole(Authenticated(user, users[user]), ClubManager) == Granted
    {
      if fault == ClubCommitFails {
        return CreateFailed;
      }
      var clubId := nextClubId;
      ClubCreationKeepsConsistency(users.Keys, clubs, nextClubId, memberships, user);
      clubs := clubs[clubId := Club(user)];
      nextClubId := nextClubId + 1;
      if fault == MembershipCommitFails {
        return CreateFailed;
      }
      assert users[user := Promoted(users[user])].Keys == users.Keys;
      users := users[user := Promoted(users[user])];
      var row := Membership(user, clubId);
      memberships := memberships + [row];
      assert memberships[|memberships| - 1] == row;
      outcome := Created(clubId);
    }
  }
}
