/** The database-bound part of reservations/models.py: the conflict scan,
    clean(), save() with and without a column list, and deletion, each
    firing the car-status handlers of reservations/signals.py. */
module ReservationRecords {
  import opened Common
  import opened Cars
  import opened Users
  import opened Reservations
  import opened Storage
  import opened Signals

  // ---------------------------------------------------------------------
  // check_date_conflict and clean

  /** The rows the conflict query selects: same car, live, not r's own row. */
  function ConflictCandidates(rs: map<Id, Reservation>, pk: Option<Id>, r: Reservation): (ids: set<Id>)
    ensures forall id :: id in ids <==> id in rs && rs[id].car == r.car && rs[id].status.IsLive() && pk != Some(id)
  {
    set id | id in rs && rs[id].car == r.car && rs[id].status.IsLive() && pk != Some(id)
  }

  /** The scan of check_date_conflict: the candidate rows are visited
      newest first (the model's ordering is `-created_at`), and the first
      whose dates overlap r's is reported, so the blocker named is the
      newest row that blocks r. */
  method CheckDateConflict(db: Store, pk: Option<Id>, r: Reservation) returns (blocker: Option<Id>)
    ensures blocker.None? <==> !HasConflict(db.reservations, pk, r)
    ensures blocker.Some? ==>
      blocker.value in db.reservations && pk != Some(blocker.value) && Blocks(db.reservations[blocker.value], r)
    ensures blocker.Some? ==> forall id :: id in db.reservations && pk != Some(id) && Blocks(db.reservations[id], r) ==>
      id <= blocker.value
  {
    var candidates := ConflictCandidates(db.reservations, pk, r);
    var remaining := candidates;
    while remaining != {}
      invariant remaining <= candidates
      invariant forall id :: id in candidates && id !in remaining ==> !Blocks(db.reservations[id], r)
      invariant forall a, b :: a in candidates && a !in remaining && b in remaining ==> b < a
      decreases remaining
    {
      var id := PickNewest(remaining);
      var other := db.reservations[id];
      if r.startDate <= other.endDate && r.endDate >= other.startDate {
        return Some(id);
      }
      remaining := remaining - {id};
    }
    return None;
  }

  /** What clean() reports: the first guard that rejects; failing that, the
      newest row that blocks r; failing that, success. */
  predicate CleanReports(rs: map<Id, Reservation>, users: map<Id, Account>, profiles: map<Id, UserProfile>,
                         cars: map<Id, Car>, pk: Option<Id>, r: Reservation, today: Day,
                         res: Outcome<ValidationError>)
    requires r.user in users && r.car in cars
  {
    var guards := CleanGuards(r, pk.None?, today, users[r.user], ProfileOf(profiles, r.user), cars[r.car]);
    if guards.Fail? then res == guards
    else if HasConflict(rs, pk, r) then
      && res.Fail? && res.error.DateConflict?
      && res.error.blocking in rs && pk != Some(res.error.blocking)
      && Blocks(rs[res.error.blocking], r)
      && (forall id :: id in rs && pk != Some(id) && Blocks(rs[id], r) ==> id <= res.error.blocking)
    else res.Pass?
  }

  /** clean() passes exactly when every guard passes and no row blocks. */
  lemma CleanPassesIffSucceeds(rs: map<Id, Reservation>, users: map<Id, Account>, profiles: map<Id, UserProfile>,
                               cars: map<Id, Car>, pk: Option<Id>, r: Reservation, today: Day,
                               res: Outcome<ValidationError>)
    requires r.user in users && r.car in cars
    requires CleanReports(rs, users, profiles, cars, pk, r, today, res)
    ensures res.Pass? <==> CleanSucceeds(rs, users, profiles, cars, pk, r, today)
  {
  }

  method Clean(db: Store, pk: Option<Id>, r: Reservation, today: Day) returns (res: Outcome<ValidationError>)
    requires r.user in db.users && r.car in db.cars
    ensures CleanReports(db.reservations, db.users, db.profiles, db.cars, pk, r, today, res)
  {
    var guards := CleanGuards(r, pk.None?, today, db.users[r.user], ProfileOf(db.profiles, r.user), db.cars[r.car]);
    if guards.Fail? {
      return guards;
    }
    var blocker := CheckDateConflict(db, pk, r);
    if blocker.Some? {
      return Fail(DateConflict(blocker.value));
    }
    return Pass;
  }

  // ---------------------------------------------------------------------
  // Facts about the conflict relation.

  /** Excluding r's own key is the same as scanning the table without r's row. */
  lemma OwnRowNeverBlocks(rs: map<Id, Reservation>, id: Id, r: Reservation)
    ensures HasConflict(rs, Some(id), r) <==> HasConflict(rs - {id}, None, r)
  {
    if HasConflict(rs, Some(id), r) {
      var x :| x in rs && Some(id) != Some(x) && Blocks(rs[x], r);
      assert x in rs - {id};
    }
    if HasConflict(rs - {id}, None, r) {
      var x :| x in rs - {id} && Blocks((rs - {id})[x], r);
      assert x in rs && Some(id) != Some(x);
    }
  }

  /** Overlap is inclusive: a live stay of the same car that ends on r's
      first day blocks r. */
  lemma BackToBackConflicts(rs: map<Id, Reservation>, id: Id, r: Reservation)
    requires id in rs && rs[id].car == r.car && rs[id].status.IsLive()
    requires rs[id].startDate <= rs[id].endDate == r.startDate <= r.endDate
    ensures HasConflict(rs, None, r)
  {
    assert Blocks(rs[id], r);
  }

  /** Only the car and the dates of r matter to the conflict check. */
  lemma ConflictDependsOnSchedule(rs: map<Id, Reservation>, pk: Option<Id>, a: Reservation, b: Reservation)
    requires SameSchedule(a, b)
    ensures HasConflict(rs, pk, a) <==> HasConflict(rs, pk, b)
  {
    if HasConflict(rs, pk, a) {
      var x :| x in rs && pk != Some(x) && Blocks(rs[x], a);
      assert Blocks(rs[x], b);
    }
    if HasConflict(rs, pk, b) {
      var x :| x in rs && pk != Some(x) && Blocks(rs[x], b);
      assert Blocks(rs[x], a);
    }
  }

  /** In a table without overlaps, a live row re-saved with its own car and
      dates never meets a conflict. */
  lemma ResavedLiveRowNeverConflicts(rs: map<Id, Reservation>, id: Id, r: Reservation)
    requires NoLiveOverlap(rs) && id in rs && rs[id].status.IsLive() && SameSchedule(rs[id], r)
    ensures !HasConflict(rs, Some(id), r)
  {
    forall x | x in rs && Some(id) != Some(x)
      ensures !Blocks(rs[x], r)
    {
      assert !Blocks(rs[x], rs[id]);
    }
  }

  /** Writing a row that nothing else blocks keeps the table free of overlaps. */
  lemma {:induction false} WriteKeepsNoLiveOverlap(rs: map<Id, Reservation>, id: Id, row: Reservation)
    requires NoLiveOverlap(rs) && !HasConflict(rs, Some(id), row)
    ensures NoLiveOverlap(rs[id := row])
  {
    var rs' := rs[id := row];
    forall a, b | a in rs' && b in rs' && a != b && rs'[b].status.IsLive()
      ensures !Blocks(rs'[a], rs'[b])
    {
      if b == id {
        assert rs'[a] == rs[a] && Some(id) != Some(a);
      } else if a == id {
        assert Some(id) != Some(b) && !Blocks(rs[b], row);
        if row.status.IsLive() {
          BlocksSymmetric(row, rs[b]);
        }
      } else {
        assert rs'[a] == rs[a] && rs'[b] == rs[b];
      }
    }
  }

  lemma RemoveKeepsNoLiveOverlap(rs: map<Id, Reservation>, id: Id)
    requires NoLiveOverlap(rs)
    ensures NoLiveOverlap(rs - {id})
  {
  }

  /** Re-saving a stored live row with its own owner, car, dates, rate and
      total: no row blocks it, the total is kept, and clean() passes exactly
      when the owner may still book. */
  lemma ResaveSucceedsIffOwnerMayReserve(rs: map<Id, Reservation>, users: map<Id, Account>,
                                         profiles: map<Id, UserProfile>, cars: map<Id, Car>,
                                         id: Id, r: Reservation, today: Day)
    requires NoLiveOverlap(rs) && id in rs && rs[id].status.IsLive() && WellFormedRow(rs[id])
    requires SameSchedule(rs[id], r) && r.user == rs[id].user
    requires r.dailyRate == rs[id].dailyRate && r.totalAmount == rs[id].totalAmount
    requires r.user in users && r.car in cars
    ensures TotalOrComputed(r) == r.totalAmount && r.totalAmount.Some?
    ensures CleanSucceeds(rs, users, profiles, cars, Some(id), r, today) <==>
            OwnerMayReserve(users[r.user], ProfileOf(profiles, r.user))
    ensures forall res :: CleanReports(rs, users, profiles, cars, Some(id), r, today, res) && res.Fail? ==>
            res.error in {UserInactive, MissingProfile, NotEligible}
  {
    ResavedLiveRowNeverConflicts(rs, id, r);
    ExistingRowGuardsCheckOnlyOwner(r, today, users[r.user], ProfileOf(profiles, r.user), cars[r.car]);
  }

  // ---------------------------------------------------------------------
  // save and delete

  /** The row a successful save leaves under its key: the whole instance, or
      with a column list only those columns over the stored row. */
  function RowAfterSave(rs: map<Id, Reservation>, pk: Option<Id>, instance: Reservation,
                        only: Option<set<Column>>): Reservation
    requires only.Some? ==> pk.Some? && pk.value in rs
  {
    if only.Some? then Persisted(rs[pk.value], instance, only.value) else instance
  }

  /** save(): clean() first; then an unset or zero total is filled with rate
      times days (raising when the rate is unset); then the row is inserted
      under a fresh key or written over its own, and the post-save handler
      runs with the saved instance. A failure writes nothing. A column list
      (`update_fields`) is modelled for an instance that keeps its row's car
      and dates. */
  method Save(db: Store, pk: Option<Id>, r: Reservation, only: Option<set<Column>>, today: Day)
    returns (res: Result<Id, Error>)
    requires db.Valid()
    requires r.user in db.users && r.car in db.cars
    requires r.cancelledBy.Some? ==> r.cancelledBy.value in db.users
    requires TotalNotNegative(r)
    requires pk.Some? ==> pk.value in db.reservations
    requires only.Some? ==> pk.Some? && SameSchedule(db.reservations[pk.value], r)
    modifies db
    ensures db.Valid()
    ensures res.Ok? <==>
      CleanSucceeds(old(db.reservations), old(db.users), old(db.profiles), old(db.cars), pk, r, today) &&
      TotalOrComputed(r).Some?
    ensures res.Err? && res.error.Invalid? ==>
      CleanReports(old(db.reservations), old(db.users), old(db.profiles), old(db.cars), pk, r, today, Fail(res.error.reason))
    ensures res.Err? && res.error.MissingRate? ==>
      CleanSucceeds(old(db.reservations), old(db.users), old(db.profiles), old(db.cars), pk, r, today) &&
      TotalOrComputed(r).None?
    ensures res.Ok? ==> res.value == (if pk.Some? then pk.value else old(db.nextReservationId))
    ensures res.Ok? ==>
      db.reservations == old(db.reservations)[res.value := RowAfterSave(old(db.reservations), pk, r.(totalAmount := TotalOrComputed(r)), only)]
    ensures res.Ok? ==> db.cars == old(db.cars)[r.car := CarAfterSave(old(db.cars)[r.car], r.status)]
    ensures res.Err? ==> db.reservations == old(db.reservations) && db.cars == old(db.cars)
    ensures db.nextReservationId == old(db.nextReservationId) + (if res.Ok? && pk.None? then 1 else 0)
    ensures db.users == old(db.users) && db.profiles == old(db.profiles) && db.nextUserId == old(db.nextUserId)
  {
    var check := Clean(db, pk, r, today);
    CleanPassesIffSucceeds(db.reservations, db.users, db.profiles, db.cars, pk, r, today, check);
    if check.Fail? {
      return Err(Invalid(check.error));
    }
    var total := TotalOrComputed(r);
    if total.None? {
      return Err(MissingRate);
    }
    var instance := r.(totalAmount := total);
    FilledRowWellFormed(r, pk.None?, today, db.users[r.user], ProfileOf(db.profiles, r.user), db.cars[r.car]);
    var row := RowAfterSave(db.reservations, pk, instance, only);
    ConflictDependsOnSchedule(db.reservations, pk, r, row);
    var id: Id := if pk.None? then db.nextReservationId else pk.value;
    WriteKeepsNoLiveOverlap(db.reservations, id, row);
    db.PutReservation(id, row);
    UpdateCarStatusOnSave(db, instance);
    return Ok(id);
  }

  /** Deleting a reservation: the pre-delete handler clears its car's rented
      flag, then the row goes. */
  method Delete(db: Store, id: Id)
    requires db.Valid() && id in db.reservations
    modifies db
    ensures db.Valid()
    ensures db.reservations == old(db.reservations) - {id}
    ensures var car := old(db.reservations)[id].car;
            db.cars == old(db.cars)[car := CarAfterDelete(old(db.cars)[car])]
    ensures db.users == old(db.users) && db.profiles == old(db.profiles)
    ensures db.nextUserId == old(db.nextUserId) && db.nextReservationId == old(db.nextReservationId)
  {
    UpdateCarStatusOnDelete(db, db.reservations[id]);
    RemoveKeepsNoLiveOverlap(db.reservations, id);
    db.reservations := db.reservations - {id};
  }
}
