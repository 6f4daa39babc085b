/** reservations/signals.py: after a reservation is saved its car's rented
    flag follows the reservation's status, and before a reservation is
    deleted the flag is cleared. Only the flag is ever written. */
module Signals {
  import opened Common
  import opened Cars
  import opened Reservations
  import opened Storage

  /** The car as the post-save handler leaves it: rented for an active
      reservation, not rented for a completed or cancelled one, untouched
      for a pending or confirmed one. Nothing but the flag changes. */
  function CarAfterSave(c: Car, status: Status): (c': Car)
    ensures status == Active ==> c'.isRented
    ensures status.IsTerminal() ==> !c'.isRented
    ensures status == Pending || status == Confirmed ==> c' == c
    ensures c' == c.(isRented := c'.isRented)
  {
    if status == Active then
      if !c.isRented then c.(isRented := true) else c
    else if status == Completed || status == Cancelled then
      if c.isRented then c.(isRented := false) else c
    else
      c
  }

  /** The car as the pre-delete handler leaves it: not rented, whatever the
      status of the deleted reservation and whatever other reservation is
      still active on it. */
  function CarAfterDelete(c: Car): (c': Car)
    ensures !c'.isRented
    ensures c' == c.(isRented := false)
  {
    if c.isRented then c.(isRented := false) else c
  }

  /** Running a handler twice has the effect of running it once. */
  lemma SaveHandlerIdempotent(c: Car, status: Status)
    ensures CarAfterSave(CarAfterSave(c, status), status) == CarAfterSave(c, status)
  {
  }

  lemma DeleteHandlerIdempotent(c: Car)
    ensures CarAfterDelete(CarAfterDelete(c)) == CarAfterDelete(c)
  {
  }

  /** `car.save(update_fields=['is_rented'])`: the car's own validation runs
      first; it cannot fail here, because the car differs from a stored,
      hence valid, car only in its rented flag. */
  method WriteRentedFlag(db: Store, carId: Id, car: Car)
    requires db.Valid() && carId in db.cars
    requires car == db.cars[carId].(isRented := car.isRented)
    modifies db
    ensures db.Valid()
    ensures db.cars == old(db.cars)[carId := car]
    ensures db.users == old(db.users) && db.profiles == old(db.profiles)
    ensures db.reservations == old(db.reservations)
    ensures db.nextUserId == old(db.nextUserId) && db.nextReservationId == old(db.nextReservationId)
  {
    assert CleanCar(car) == CleanCar(db.cars[carId]);
    var saved := SaveCar(db.cars, carId, car);
    db.cars := saved.value;
  }

  /** The post-save handler, for the saved instance. */
  method UpdateCarStatusOnSave(db: Store, instance: Reservation)
    requires db.Valid() && instance.car in db.cars
    modifies db
    ensures db.Valid()
    ensures db.cars == old(db.cars)[instance.car := CarAfterSave(old(db.cars)[instance.car], instance.status)]
    ensures db.users == old(db.users) && db.profiles == old(db.profiles)
    ensures db.reservations == old(db.reservations)
    ensures db.nextUserId == old(db.nextUserId) && db.nextReservationId == old(db.nextReservationId)
  {
    var car := db.cars[instance.car];
    if instance.status == Active {
      if !car.isRented {
        WriteRentedFlag(db, instance.car, car.(isRented := true));
      }
    } else if instance.status == Completed || instance.status == Cancelled {
      if car.isRented {
        WriteRentedFlag(db, instance.car, car.(isRented := false));
      }
    }
  }

  /** The pre-delete handler, for the instance about to be deleted. */
  method UpdateCarStatusOnDelete(db: Store, instance: Reservation)
    requires db.Valid() && instance.car in db.cars
    modifies db
    ensures db.Valid()
    ensures db.cars == old(db.cars)[instance.car := CarAfterDelete(old(db.cars)[instance.car])]
    ensures db.users == old(db.users) && db.profiles == old(db.profiles)
    ensures db.reservations == old(db.reservations)
    ensures db.nextUserId == old(db.nextUserId) && db.nextReservationId == old(db.nextReservationId)
  {
    var car := db.cars[instance.car];
    if car.isRented {
      WriteRentedFlag(db, instance.car, car.(isRented := false));
    }
  }
}
