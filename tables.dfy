/**
 * The rows of the tables the admission controller works on, and the queries
 * it runs against them. The registration and membership tables are
 * append-only in this core, so each is modelled as the sequence of its rows
 * in insertion order.
 */
module Tables {

  type UserId = nat
  type EventId = nat
  type ClubId = nat

  /** The values the `payment_status` column takes. */
  datatype PaymentStatus = Pending | Paid | Refunded

  /** The fields of an event row the controller reads; the price is in cents. */
  datatype Event = Event(capacity: int, priceCents: nat)

  /** A row of the event-registration table. */
  datatype Registration = Registration(userId: UserId, eventId: EventId, paymentStatus: PaymentStatus)

  /** A row of the club-membership table. */
  datatype Membership = Membership(userId: UserId, clubId: ClubId)

  /** The column a registration is counted by. */
  function EventOf(r: Registration): EventId { r.eventId }

  /** The key of the `unique_user_event` constraint. */
  function UserEvent(r: Registration): (UserId, EventId) { (r.userId, r.eventId) }

  /** The key of the `unique_user_club` constraint. */
  function UserClub(m: Membership): (UserId, ClubId) { (m.userId, m.clubId) }

  /** The status a new registration gets: free events are paid at once. */
  function InitialPaymentStatus(priceCents: nat): (s: PaymentStatus)
    ensures s == Paid <==> priceCents == 0
    ensures s == Pending <==> priceCents > 0
  {
    if priceCents == 0 then Paid else Pending
  }

  /** Whether some row of the table has key `k`. */
  function Contains<T, K(==)>(rows: seq<T>, key: T -> K, k: K): (b: bool)
    ensures b <==> exists i :: 0 <= i < |rows| && key(rows[i]) == k
  {
    if rows == [] then false
    else key(rows[0]) == k || Contains(rows[1..], key, k)
  }

  /** The number of rows with key `k` (a filtered `count()` query). */
  function Occurrences<T, K(==)>(rows: seq<T>, key: T -> K, k: K): (n: nat)
    ensures n <= |rows|
    ensures n > 0 <==> Contains(rows, key, k)
  {
    if rows == [] then 0
    else (if key(rows[0]) == k then 1 else 0) + Occurrences(rows[1..], key, k)
  }

  /** A uniqueness constraint on `key` holds for the table. */
  ghost predicate UniqueOn<T, K>(rows: seq<T>, key: T -> K)
  {
    forall i, j :: 0 <= i < j < |rows| ==> key(rows[i]) != key(rows[j])
  }

  /** The key column of the table, as a sequence. */
  function Keys<T, K>(rows: seq<T>, key: T -> K): seq<K>
  {
    seq(|rows|, i requires 0 <= i < |rows| => key(rows[i]))
  }

  /** Counting rows agrees with the multiplicity of the key in the key column. */
  lemma {:induction false} OccurrencesIsMultiplicity<T, K>(rows: seq<T>, key: T -> K, k: K)
    ensures Occurrences(rows, key, k) == multiset(Keys(rows, key))[k]
  {
    if rows != [] {
      OccurrencesIsMultiplicity(rows[1..], key, k);
      assert Keys(rows, key) == [key(rows[0])] + Keys(rows[1..], key);
    }
  }

  /** Appending a row raises the count of its own key by one and no other. */
  lemma {:induction false} OccurrencesAppend<T, K>(rows: seq<T>, x: T, key: T -> K, k: K)
    ensures Occurrences(rows + [x], key, k) == Occurrences(rows, key, k) + (if key(x) == k then 1 else 0)
  {
    if rows == [] {
      assert rows + [x] == [x];
    } else {
      assert (rows + [x])[1..] == rows[1..] + [x];
      OccurrencesAppend(rows[1..], x, key, k);
    }
  }

  /** Under a uniqueness constraint no key occurs twice. */
  lemma {:induction false} UniqueAtMostOnce<T, K>(rows: seq<T>, key: T -> K, k: K)
    requires UniqueOn(rows, key)
    ensures Occurrences(rows, key, k) <= 1
  {
    if rows != [] {
      assert UniqueOn(rows[1..], key) by {
        forall i, j | 0 <= i < j < |rows| - 1
          ensures key(rows[1..][i]) != key(rows[1..][j])
        {
          assert key(rows[i + 1]) != key(rows[j + 1]);
        }
      }
      UniqueAtMostOnce(rows[1..], key, k);
      if key(rows[0]) == k {
        assert !Contains(rows[1..], key, k) by {
          forall i | 0 <= i < |rows| - 1 ensures key(rows[1..][i]) != k {
            assert key(rows[0]) != key(rows[i + 1]);
          }
        }
      }
    }
  }

  /** Appending a row whose key is absent keeps the uniqueness constraint. */
  lemma UniqueAppend<T, K>(rows: seq<T>, x: T, key: T -> K)
    requires UniqueOn(rows, key)
    requires !Contains(rows, key, key(x))
    ensures UniqueOn(rows + [x], key)
  {
  }
}
