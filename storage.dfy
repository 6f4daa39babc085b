/** The database tables the core reads and writes, held in memory. */
module Storage {
  import opened Common
  import opened Cars
  import opened Users
  import opened Reservations

  /** The four tables and the two auto-increment counters that hand out
      new keys. Profiles are keyed by the id of the account they belong to. */
  class Store {
    var users: map<Id, Account>
    var profiles: map<Id, UserProfile>
    var cars: map<Id, Car>
    var reservations: map<Id, Reservation>
    var nextUserId: Id
    var nextReservationId: Id

    /** What every successful save keeps true: keys below their counters,
        each profile belonging to an existing account, reservations pointing
        at existing accounts and cars (and at an existing canceller when one
        is recorded), every car
        passing its validation, every reservation well formed, and no two
        live reservations of one car overlapping. */
    ghost predicate Valid()
      reads this
    {
      && (forall id :: id in users ==> id < nextUserId)
      && (forall id :: id in profiles ==> id in users)
      && (forall id :: id in reservations ==> id < nextReservationId)
      && (forall id :: id in reservations ==>
            reservations[id].user in users && reservations[id].car in cars && WellFormedRow(reservations[id]))
      && (forall id :: id in reservations && reservations[id].cancelledBy.Some? ==>
            reservations[id].cancelledBy.value in users)
      && AllCarsValid(cars)
      && NoLiveOverlap(reservations)
    }

    /** Writes a reservation row over its own key, or inserts it under the
        next key and advances the counter. */
    method PutReservation(id: Id, row: Reservation)
      requires Valid()
      requires id in reservations || id == nextReservationId
      requires row.user in users && row.car in cars && WellFormedRow(row)
      requires row.cancelledBy.Some? ==> row.cancelledBy.value in users
      requires NoLiveOverlap(reservations[id := row])
      modifies this
      ensures Valid()
      ensures reservations == old(reservations)[id := row]
      ensures nextReservationId == old(nextReservationId) + (if id == old(nextReservationId) then 1 else 0)
      ensures users == old(users) && profiles == old(profiles) && cars == old(cars)
      ensures nextUserId == old(nextUserId)
    {
      if id == nextReservationId {
        nextReservationId := nextReservationId + 1;
      }
      reservations := reservations[id := row];
    }

    /** Inserts an account and its profile under the next account key and
        advances the counter. */
    method AddAccount(account: Account, profile: UserProfile)
      requires Valid()
      modifies this
      ensures Valid()
      ensures users == old(users)[old(nextUserId) := account]
      ensures profiles == old(profiles)[old(nextUserId) := profile]
      ensures nextUserId == old(nextUserId) + 1
      ensures cars == old(cars) && reservations == old(reservations)
      ensures nextReservationId == old(nextReservationId)
    {
      users := users[nextUserId := account];
      profiles := profiles[nextUserId := profile];
      nextUserId := nextUserId + 1;
    }

    constructor ()
      ensures Valid()
      ensures users == map[] && profiles == map[] && cars == map[] && reservations == map[]
    {
      users, profiles, cars, reservations := map[], map[], map[], map[];
      nextUserId, nextReservationId := 1, 1;
    }
  }
}
