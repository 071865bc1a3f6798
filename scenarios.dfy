/**
 * Request sequences against a fresh store, with the outcomes the handlers'
 * contracts force. Each shows one behaviour the admission rules promise.
 */
module Scenarios {
  import opened Tables
  import opened Auth
  import opened Platform

  /** Two users compete for the one seat of a free event: one gets it, one is told it is full. */
  method LastSeat() returns (first: RegistrationOutcome, second: RegistrationOutcome, occupancy: nat)
    ensures first == Admitted(Paid) && second == EventFull && occupancy == 1
  {
    var s := new Store(map[1 := RegularUser, 2 := RegularUser], map[7 := Event(1, 0)]);
    first := s.RegisterForEvent(1, 7, NoFault);
    second := s.RegisterForEvent(2, 7, NoFault);
    occupancy := s.Occupancy(7);
  }

  /** Registering twice for a paid event: the second request is a duplicate, not a second row. */
  method DoubleClick() returns (first: RegistrationOutcome, second: RegistrationOutcome, occupancy: nat)
    ensures first == Admitted(Pending) && second == AlreadyRegistered && occupancy == 1
  {
    var s := new Store(map[1 := RegularUser], map[7 := Event(10, 2500)]);
    first := s.RegisterForEvent(1, 7, NoFault);
    second := s.RegisterForEvent(1, 7, NoFault);
    occupancy := s.Occupancy(7);
  }

  /**
   * The same requests as `LastSeat`, as the code is written: loading the
   * logged-in user has already begun the session's transaction, so opening
   * the registration transaction raises inside the `try`. Both users get the
   * generic error, and the seat nobody could take is still free.
   */
  method RegisterInBegunSession() returns (first: RegistrationOutcome, second: RegistrationOutcome, occupancy: nat, spots: int)
    ensures first == RegistrationFailed && second == RegistrationFailed
    ensures occupancy == 0 && spots == 1
  {
    var s := new Store(map[1 := RegularUser, 2 := RegularUser], map[7 := Event(1, 0)]);
    first := s.RegisterForEvent(1, 7, InTransaction);
    second := s.RegisterForEvent(2, 7, InTransaction);
    occupancy := s.Occupancy(7);
    spots := s.AvailableSpots(7);
  }

  /** A registered user retrying on an event that has since filled is told it is full. */
  method FullBeforeDuplicate() returns (retry: RegistrationOutcome)
    ensures retry == EventFull
  {
    var s := new Store(map[1 := RegularUser], map[7 := Event(1, 0)]);
    var first := s.RegisterForEvent(1, 7, NoFault);
    retry := s.RegisterForEvent(1, 7, NoFault);
  }

  /** A user with no registration asks for a seat at a free event with room: the seat is granted, paid. */
  method AdmitFree(s: Store, user: UserId, eventId: EventId) returns (outcome: RegistrationOutcome)
    requires s.Valid() && user in s.users && !s.IsRegistered(user, eventId)
    requires eventId in s.events && s.events[eventId].priceCents == 0 && s.Occupancy(eventId) < s.events[eventId].capacity
    modifies s
    ensures s.Valid() && s.users == old(s.users) && s.events == old(s.events)
    ensures outcome == Admitted(Paid)
    ensures s.registrations == old(s.registrations) + [Registration(user, eventId, Paid)]
    ensures s.Occupancy(eventId) == old(s.Occupancy(eventId)) + 1
  {
    outcome := s.RegisterForEvent(user, eventId, NoFault);
  }

  /**
   * Users 1 to n register in turn for a free event with room for all of them
   * and no registrations yet: every one of them is admitted.
   */
  method AdmitInTurn(s: Store, eventId: EventId, n: nat) returns (outcomes: seq<RegistrationOutcome>)
    requires s.Valid() && s.registrations == []
    requires eventId in s.events && s.events[eventId].priceCents == 0 && n <= s.events[eventId].capacity
    requires forall v :: 1 <= v <= n ==> v in s.users
    modifies s
    ensures s.Valid() && s.users == old(s.users) && s.events == old(s.events)
    ensures s.Occupancy(eventId) == n
    ensures |outcomes| == n && forall i :: 0 <= i < n ==> outcomes[i] == Admitted(Paid)
  {
    outcomes := [];
    var u := 1;
    while u <= n
      invariant 1 <= u <= n + 1
      invariant s.Valid() && s.users == old(s.users) && s.events == old(s.events)
      invariant s.Occupancy(eventId) == u - 1
      invariant forall i :: 0 <= i < |s.registrations| ==> s.registrations[i].userId < u
      invariant |outcomes| == u - 1 && forall i :: 0 <= i < |outcomes| ==> outcomes[i] == Admitted(Paid)
    {
      assert !s.IsRegistered(u, eventId);
      var o := AdmitFree(s, u, eventId);
      outcomes := outcomes + [o];
      u := u + 1;
    }
  }

  /** Five users fill an event of capacity five exactly; a sixth is turned away. */
  method FillToCapacity() returns (outcomes: seq<RegistrationOutcome>, occupancy: nat, spots: int)
    ensures outcomes == [Admitted(Paid), Admitted(Paid), Admitted(Paid), Admitted(Paid), Admitted(Paid), EventFull]
    ensures occupancy == 5 && spots == 0
  {
    var s := new Store(map[1 := RegularUser, 2 := RegularUser, 3 := RegularUser, 4 := RegularUser, 5 := RegularUser, 6 := RegularUser],
                       map[7 := Event(5, 0)]);
    outcomes := AdmitInTurn(s, 7, 5);
    var last := s.RegisterForEvent(6, 7, NoFault);
    outcomes := outcomes + [last];
    occupancy := s.Occupancy(7);
    spots := s.AvailableSpots(7);
  }

  /** A failed transaction changes nothing: the seat is still free for the next attempt. */
  method FailureRollsBack() returns (failed: RegistrationOutcome, retried: RegistrationOutcome)
    ensures failed == RegistrationFailed && retried == Admitted(Paid)
  {
    var s := new Store(map[1 := RegularUser], map[7 := Event(1, 0)]);
    failed := s.RegisterForEvent(1, 7, InTransaction);
    retried := s.RegisterForEvent(1, 7, NoFault);
  }

  /**
   * A failure after the commit reports an error, yet the seat is taken: the
   * user's retry is a duplicate, and of two seats only one is left for another user.
   */
  method FailureAfterCommit() returns (failed: RegistrationOutcome, retried: RegistrationOutcome, spots: int)
    ensures failed == RegistrationFailed && retried == AlreadyRegistered && spots == 1
  {
    var s := new Store(map[1 := RegularUser], map[7 := Event(2, 1500)]);
    failed := s.RegisterForEvent(1, 7, AfterCommit);
    assert s.registrations[0] == Registration(1, 7, Pending);
    retried := s.RegisterForEvent(1, 7, NoFault);
    spots := s.AvailableSpots(7);
  }

  /** Creating a club makes the creator its member and a club manager; joining again is a duplicate. */
  method CreateThenJoin() returns (created: CreateOutcome, rejoin: JoinOutcome, gate: Access)
    ensures created == Created(1) && rejoin == AlreadyMember && gate == Granted
  {
    var s := new Store(map[1 := RegularUser], map[]);
    created := s.CreateClub(1, CreateSucceeds);
    rejoin := s.JoinClub(1, 1, false);
    gate := RequireRole(Authenticated(1, s.users[1]), ClubManager);
  }
}
