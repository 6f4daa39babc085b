/** reservations/tasks.py: the periodic sweeps. Each selects rows by status
    and date, assigns the new status (and, for auto-cancellation, the
    cancellation time and reason) and saves each row with a column list,
    so every row goes through clean() and the car-status handler. Rows are
    visited newest first; an error stops the sweep, and rows saved before
    it stay saved. The count returned is the number of rows selected. */
module Tasks {
  import opened Common
  import opened Cars
  import opened Users
  import opened Reservations
  import opened Storage
  import opened Signals
  import opened ReservationRecords

  /** The four sweeps; auto-cancellation stamps the current instant. */
  datatype Sweep = ActivateToday | CompleteToday | CompleteExpired | CancelExpired(now: Instant)

  const AutoCancelReason: string := "Auto-cancelled: end date passed"

  /** The filter of each sweep. */
  predicate Selects(w: Sweep, r: Reservation, today: Day): (ok: bool)
    ensures ok ==> r.status.IsLive() && r.status != Target(w)
  {
    match w
    case ActivateToday => r.status == Confirmed && r.startDate == today
    case CompleteToday => r.status == Active && r.endDate == today
    case CompleteExpired => r.status == Active && r.endDate < today
    case CancelExpired(_) => (r.status == Pending || r.status == Confirmed) && r.endDate < today
  }

  /** The status each sweep assigns. */
  function Target(w: Sweep): (s: Status)
    ensures s != Pending && s != Confirmed
    ensures s == Cancelled <==> w.CancelExpired?
    ensures s == Active <==> w == ActivateToday
  {
    match w
    case ActivateToday => Active
    case CompleteToday => Completed
    case CompleteExpired => Completed
    case CancelExpired(_) => Cancelled
  }

  /** The columns each sweep names in `update_fields`. */
  function Columns(w: Sweep): set<Column> {
    if w.CancelExpired? then {StatusColumn, CancellationDateColumn, CancellationReasonColumn} else {StatusColumn}
  }

  /** A selected row after the sweep has assigned its fields. The fee and
      the canceller are left as they were. */
  function Touched(w: Sweep, r: Reservation): (t: Reservation)
    ensures t.status == Target(w) && SameSchedule(t, r) && t.user == r.user
    ensures t.dailyRate == r.dailyRate && t.totalAmount == r.totalAmount
    ensures t.cancellationFee == r.cancellationFee && t.cancelledBy == r.cancelledBy
    ensures w.CancelExpired? ==> t.cancellationDate == Some(w.now) && t.cancellationReason == AutoCancelReason
    ensures !w.CancelExpired? ==> t.cancellationDate == r.cancellationDate && t.cancellationReason == r.cancellationReason
  {
    match w
    case CancelExpired(now) =>
      r.(status := Cancelled, cancellationDate := Some(now), cancellationReason := AutoCancelReason)
    case _ => r.(status := Target(w))
  }

  /** Saving a touched row with the sweep's column list writes exactly the
      touched row, whatever the instance's total was filled with. */
  lemma PersistedIsTouched(w: Sweep, r: Reservation, total: Option<Cents>)
    ensures Persisted(r, Touched(w, r).(totalAmount := total), Columns(w)) == Touched(w, r)
  {
  }

  function Selected(rs: map<Id, Reservation>, w: Sweep, today: Day): (ids: set<Id>)
    ensures forall id :: id in ids <==> id in rs && Selects(w, rs[id], today)
  {
    set id | id in rs && Selects(w, rs[id], today)
  }

  /** The table once the rows in `done` have been swept. */
  function Swept(rs: map<Id, Reservation>, done: set<Id>, w: Sweep): (rs': map<Id, Reservation>)
    ensures rs'.Keys == rs.Keys
    ensures forall id :: id in rs ==> rs'[id] == if id in done then Touched(w, rs[id]) else rs[id]
  {
    map id | id in rs :: if id in done then Touched(w, rs[id]) else rs[id]
  }

  /** Some row in `done` is a reservation of car c. */
  predicate CarTouched(rs: map<Id, Reservation>, done: set<Id>, c: Id) {
    exists id :: id in done && id in rs && rs[id].car == c
  }

  /** The cars once the handler has run for the rows in `done`: the cars of
      those rows have their flag set as the target status demands, all
      other cars are as they were. */
  function CarsAfter(cars: map<Id, Car>, rs: map<Id, Reservation>, done: set<Id>, w: Sweep): (cars': map<Id, Car>)
    ensures cars'.Keys == cars.Keys
    ensures forall c :: c in cars ==>
      cars'[c] == if CarTouched(rs, done, c) then CarAfterSave(cars[c], Target(w)) else cars[c]
  {
    map c | c in cars :: if CarTouched(rs, done, c) then CarAfterSave(cars[c], Target(w)) else cars[c]
  }

  /** One more row swept: the table and the cars advance by that row alone. */
  lemma {:induction false} SweepStep(rs: map<Id, Reservation>, cars: map<Id, Car>, done: set<Id>, id: Id, w: Sweep)
    requires id in rs && rs[id].car in cars
    ensures Swept(rs, done + {id}, w) == Swept(rs, done, w)[id := Touched(w, rs[id])]
    ensures CarsAfter(cars, rs, done + {id}, w) ==
            CarsAfter(cars, rs, done, w)[rs[id].car := CarAfterSave(CarsAfter(cars, rs, done, w)[rs[id].car], Target(w))]
  {
    var c := rs[id].car;
    var before := CarsAfter(cars, rs, done, w);
    var after := CarsAfter(cars, rs, done + {id}, w);
    assert CarTouched(rs, done + {id}, c);
    SaveHandlerIdempotent(cars[c], Target(w));
    forall c' | c' in cars && c' != c
      ensures after[c'] == before[c']
    {
      if CarTouched(rs, done + {id}, c') {
        var x :| x in done + {id} && x in rs && rs[x].car == c';
        assert x != id;
        assert CarTouched(rs, done, c');
      }
    }
  }

  /** The errors that concern the owner rather than the row. */
  predicate OwnerProblem(e: ValidationError) {
    e == UserInactive || e == MissingProfile || e == NotEligible
  }

  /** The owner of a row may still book. */
  predicate OwnerOk(users: map<Id, Account>, profiles: map<Id, UserProfile>, r: Reservation) {
    r.user in users && OwnerMayReserve(users[r.user], ProfileOf(profiles, r.user))
  }

  /** Saving one selected row during a sweep, with `done` the rows already
      swept: the save succeeds exactly when the row's owner may still book,
      and then the table and the cars advance by that row. */
  method SweepRow(db: Store, w: Sweep, today: Day, id: Id,
                  ghost rs0: map<Id, Reservation>, ghost cars0: map<Id, Car>, ghost done: set<Id>)
    returns (saved: Result<Id, Error>)
    requires db.Valid()
    requires id in rs0 && id !in done && Selects(w, rs0[id], today)
    requires db.reservations == Swept(rs0, done, w) && db.cars == CarsAfter(cars0, rs0, done, w)
    modifies db
    ensures db.Valid()
    ensures saved.Ok? <==> OwnerOk(db.users, db.profiles, rs0[id])
    ensures saved.Ok? ==>
      db.reservations == Swept(rs0, done + {id}, w) && db.cars == CarsAfter(cars0, rs0, done + {id}, w)
    ensures saved.Err? ==> db.reservations == old(db.reservations) && db.cars == old(db.cars)
    ensures saved.Err? ==> saved.error.Invalid? && OwnerProblem(saved.error.reason)
    ensures db.users == old(db.users) && db.profiles == old(db.profiles)
    ensures db.nextUserId == old(db.nextUserId) && db.nextReservationId == old(db.nextReservationId)
  {
    var r := db.reservations[id];
    assert r == rs0[id];
    var updated := Touched(w, r);
    ResaveSucceedsIffOwnerMayReserve(db.reservations, db.users, db.profiles, db.cars, id, updated, today);
    saved := Save(db, Some(id), updated, Some(Columns(w)), today);
    if saved.Ok? {
      PersistedIsTouched(w, r, TotalOrComputed(updated));
      SweepStep(rs0, cars0, done, id, w);
    }
  }

  /** Bookkeeping of the sweep loop: moving a visited row from the rows
      still to visit to those done keeps the two a partition of the
      selection. */
  lemma MoveToDone(sel: set<Id>, remaining: set<Id>, done: set<Id>, id: Id)
    requires remaining <= sel && done == sel - remaining && id in remaining
    ensures remaining - {id} <= sel && done + {id} == sel - (remaining - {id})
  {
  }

  /** Every row in `done` is newer than every row in `rest`. */
  predicate NewerFirst(done: set<Id>, rest: set<Id>) {
    forall a, b :: a in done && b in rest ==> b < a
  }

  /** The newest of the rows `left` has an owner who may not book. */
  predicate StopsAtNewestLeft(users: map<Id, Account>, profiles: map<Id, UserProfile>,
                              rs: map<Id, Reservation>, left: set<Id>) {
    exists f :: f in left && f in rs && !OwnerOk(users, profiles, rs[f]) && (forall b :: b in left ==> b <= f)
  }

  /** Moving the newest remaining row to the done ones keeps them newer. */
  lemma NewestMoved(remaining: set<Id>, done: set<Id>, id: Id)
    requires NewerFirst(done, remaining)
    requires id in remaining && forall j :: j in remaining ==> j <= id
    ensures NewerFirst(done + {id}, remaining - {id})
  {
  }

  /** A sweep that stops at the newest remaining row, whose owner may not
      book, stops at the newest row it has not saved. */
  lemma StopAt(users: map<Id, Account>, profiles: map<Id, UserProfile>, rs: map<Id, Reservation>,
               sel: set<Id>, remaining: set<Id>, done: set<Id>, id: Id)
    requires remaining <= sel && done == sel - remaining && sel <= rs.Keys
    requires id in remaining && (forall j :: j in remaining ==> j <= id) && !OwnerOk(users, profiles, rs[id])
    ensures StopsAtNewestLeft(users, profiles, rs, sel - done)
  {
    assert sel - done == remaining;
  }

  /** One sweep over the store. The rows are visited newest first (the
      model's ordering is `-created_at`); it runs through exactly when every
      selected row's owner may still book, and otherwise stops at the newest
      row not yet saved, whose owner may not, with that owner's problem. The
      rows it saved are then exactly the selected rows newer than that one. */
  method RunSweep(db: Store, w: Sweep, today: Day) returns (res: Result<nat, Error>, ghost done: set<Id>)
    requires db.Valid()
    modifies db
    ensures db.Valid()
    ensures done <= Selected(old(db.reservations), w, today)
    ensures db.reservations == Swept(old(db.reservations), done, w)
    ensures db.cars == CarsAfter(old(db.cars), old(db.reservations), done, w)
    ensures res.Ok? ==> done == Selected(old(db.reservations), w, today) && res.value == |done|
    ensures res.Ok? <==> forall id :: id in Selected(old(db.reservations), w, today) ==>
                           OwnerOk(old(db.users), old(db.profiles), old(db.reservations)[id])
    ensures res.Err? ==> res.error.Invalid? && OwnerProblem(res.error.reason)
    ensures NewerFirst(done, Selected(old(db.reservations), w, today) - done)
    ensures res.Err? ==> StopsAtNewestLeft(old(db.users), old(db.profiles), old(db.reservations),
                                           Selected(old(db.reservations), w, today) - done)
    ensures db.users == old(db.users) && db.profiles == old(db.profiles)
    ensures db.nextUserId == old(db.nextUserId) && db.nextReservationId == old(db.nextReservationId)
  {
    ghost var rs0, cars0, users0, profiles0 := db.reservations, db.cars, db.users, db.profiles;
    var sel := Selected(db.reservations, w, today);
    var remaining := sel;
    done := {};
    while remaining != {}
      invariant db.Valid()
      invariant remaining <= sel && done == sel - remaining
      invariant db.reservations == Swept(rs0, done, w) && db.cars == CarsAfter(cars0, rs0, done, w)
      invariant forall id :: id in done ==> OwnerOk(users0, profiles0, rs0[id])
      invariant NewerFirst(done, remaining)
      invariant db.users == users0 && db.profiles == profiles0
      invariant db.nextUserId == old(db.nextUserId) && db.nextReservationId == old(db.nextReservationId)
      decreases remaining
    {
      var id := PickNewest(remaining);
      var saved := SweepRow(db, w, today, id, rs0, cars0, done);
      if saved.Err? {
        StopAt(users0, profiles0, rs0, sel, remaining, done, id);
        return Err(saved.error), done;
      }
      NewestMoved(remaining, done, id);
      MoveToDone(sel, remaining, done, id);
      remaining := remaining - {id};
      done := done + {id};
    }
    assert done == sel;
    return Ok(|sel|), done;
  }

  /** activate_todays_reservations: the activation sweep, with RunSweep's
      whole contract; `done` names the rows it saved. */
  method ActivateTodaysReservations(db: Store, today: Day) returns (res: Result<nat, Error>, ghost done: set<Id>)
    requires db.Valid()
    modifies db
    ensures db.Valid()
    ensures done <= Selected(old(db.reservations), ActivateToday, today)
    ensures db.reservations == Swept(old(db.reservations), done, ActivateToday)
    ensures db.cars == CarsAfter(old(db.cars), old(db.reservations), done, ActivateToday)
    ensures res.Ok? ==> done == Selected(old(db.reservations), ActivateToday, today) && res.value == |done|
    ensures res.Ok? <==> forall id :: id in Selected(old(db.reservations), ActivateToday, today) ==>
                           OwnerOk(old(db.users), old(db.profiles), old(db.reservations)[id])
    ensures res.Err? ==> res.error.Invalid? && OwnerProblem(res.error.reason)
    ensures NewerFirst(done, Selected(old(db.reservations), ActivateToday, today) - done)
    ensures res.Err? ==> StopsAtNewestLeft(old(db.users), old(db.profiles), old(db.reservations),
                                           Selected(old(db.reservations), ActivateToday, today) - done)
    ensures db.users == old(db.users) && db.profiles == old(db.profiles)
    ensures db.nextUserId == old(db.nextUserId) && db.nextReservationId == old(db.nextReservationId)
  {
    res, done := RunSweep(db, ActivateToday, today);
  }

  /** complete_ended_reservations: the sweep of active rows ending today,
      with RunSweep's whole contract. */
  method CompleteEndedReservations(db: Store, today: Day) returns (res: Result<nat, Error>, ghost done: set<Id>)
    requires db.Valid()
    modifies db
    ensures db.Valid()
    ensures done <= Selected(old(db.reservations), CompleteToday, today)
    ensures db.reservations == Swept(old(db.reservations), done, CompleteToday)
    ensures db.cars == CarsAfter(old(db.cars), old(db.reservations), done, CompleteToday)
    ensures res.Ok? ==> done == Selected(old(db.reservations), CompleteToday, today) && res.value == |done|
    ensures res.Ok? <==> forall id :: id in Selected(old(db.reservations), CompleteToday, today) ==>
                           OwnerOk(old(db.users), old(db.profiles), old(db.reservations)[id])
    ensures res.Err? ==> res.error.Invalid? && OwnerProblem(res.error.reason)
    ensures NewerFirst(done, Selected(old(db.reservations), CompleteToday, today) - done)
    ensures res.Err? ==> StopsAtNewestLeft(old(db.users), old(db.profiles), old(db.reservations),
                                           Selected(old(db.reservations), CompleteToday, today) - done)
    ensures db.users == old(db.users) && db.profiles == old(db.profiles)
    ensures db.nextUserId == old(db.nextUserId) && db.nextReservationId == old(db.nextReservationId)
  {
    res, done := RunSweep(db, CompleteToday, today);
  }

  /** The two counts cleanup_expired_reservations returns. */
  datatype CleanupCounts = CleanupCounts(completed: nat, cancelled: nat)

  /** Sweeping no row changes nothing. */
  lemma SweptNothing(rs: map<Id, Reservation>, cars: map<Id, Car>, w: Sweep)
    ensures Swept(rs, {}, w) == rs && CarsAfter(cars, rs, {}, w) == cars
  {
  }

  /** The owners of the cancellation selection are looked up on the rows as
      they were before the first sweep, since that sweep did not touch them. */
  lemma SecondSelectionUntouched(rs: map<Id, Reservation>, done: set<Id>, today: Day, now: Instant)
    requires done <= Selected(rs, CompleteExpired, today)
    ensures forall id :: id in Selected(rs, CancelExpired(now), today) ==> Swept(rs, done, CompleteExpired)[id] == rs[id]
  {
  }

  /** Expired active rows are completed first, then expired pending and
      confirmed rows are cancelled; the second selection is made after the
      first sweep and is the same as it would have been before it. The
      second sweep runs only once the first has run through; `completed`
      and `cancelled` name the rows each sweep saved, newest first, and an
      error comes from the newest row the failing sweep did not save. */
  method CleanupExpiredReservations(db: Store, today: Day, now: Instant)
    returns (res: Result<CleanupCounts, Error>, ghost completed: set<Id>, ghost cancelled: set<Id>)
    requires db.Valid()
    modifies db
    ensures db.Valid()
    ensures var first := Selected(old(db.reservations), CompleteExpired, today);
            var second := Selected(old(db.reservations), CancelExpired(now), today);
            var mid := Swept(old(db.reservations), completed, CompleteExpired);
      && completed <= first && cancelled <= second
      && (cancelled != {} ==> completed == first)
      && db.reservations == Swept(mid, cancelled, CancelExpired(now))
      && db.cars == CarsAfter(CarsAfter(old(db.cars), old(db.reservations), completed, CompleteExpired),
                              mid, cancelled, CancelExpired(now))
      && (res.Ok? ==> completed == first && cancelled == second && res.value == CleanupCounts(|first|, |second|))
      && (res.Ok? <==> forall id :: id in first + second ==>
                         OwnerOk(old(db.users), old(db.profiles), old(db.reservations)[id]))
      && NewerFirst(completed, first - completed) && NewerFirst(cancelled, second - cancelled)
      && (res.Err? ==>
            if completed == first then StopsAtNewestLeft(old(db.users), old(db.profiles), mid, second - cancelled)
            else StopsAtNewestLeft(old(db.users), old(db.profiles), old(db.reservations), first - completed))
    ensures res.Err? ==> res.error.Invalid? && OwnerProblem(res.error.reason)
    ensures db.users == old(db.users) && db.profiles == old(db.profiles)
    ensures db.nextUserId == old(db.nextUserId) && db.nextReservationId == old(db.nextReservationId)
  {
    ghost var rs0 := db.reservations;
    var first;
    first, completed := RunSweep(db, CompleteExpired, today);
    cancelled := {};
    if first.Err? {
      SweptNothing(db.reservations, db.cars, CancelExpired(now));
      return Err(first.error), completed, cancelled;
    }
    CancelSelectionUnaffected(rs0, today, now);
    SecondSelectionUntouched(rs0, completed, today, now);
    var second;
    second, cancelled := RunSweep(db, CancelExpired(now), today);
    if second.Err? {
      return Err(second.error), completed, cancelled;
    }
    return Ok(CleanupCounts(first.value, second.value)), completed, cancelled;
  }

  // ---------------------------------------------------------------------
  // Properties of the sweeps.

  /** A swept row no longer matches its sweep's filter, so sweeping again
      selects exactly the rows not yet swept: a stopped sweep resumes where
      it stopped, and a finished one selects nothing. */
  lemma {:induction false} ResweepSelectsRest(rs: map<Id, Reservation>, done: set<Id>, w: Sweep, today: Day)
    requires done <= Selected(rs, w, today)
    ensures Selected(Swept(rs, done, w), w, today) == Selected(rs, w, today) - done
  {
    var rs' := Swept(rs, done, w);
    forall id | id in rs
      ensures id in Selected(rs', w, today) <==> id in Selected(rs, w, today) - done
    {
      if id in done {
        assert rs'[id] == Touched(w, rs[id]);
      }
    }
  }

  lemma SecondRunSelectsNothing(rs: map<Id, Reservation>, w: Sweep, today: Day)
    ensures Selected(Swept(rs, Selected(rs, w, today), w), w, today) == {}
  {
    ResweepSelectsRest(rs, Selected(rs, w, today), w, today);
  }

  /** Completing expired active rows does not change which rows the
      cancellation sweep selects. */
  lemma {:induction false} CancelSelectionUnaffected(rs: map<Id, Reservation>, today: Day, now: Instant)
    ensures Selected(Swept(rs, Selected(rs, CompleteExpired, today), CompleteExpired), CancelExpired(now), today) ==
            Selected(rs, CancelExpired(now), today)
  {
    var first := Selected(rs, CompleteExpired, today);
    var rs' := Swept(rs, first, CompleteExpired);
    forall id | id in rs
      ensures Selects(CancelExpired(now), rs'[id], today) <==> Selects(CancelExpired(now), rs[id], today)
    {
      if id in first {
        assert rs'[id] == Touched(CompleteExpired, rs[id]);
      }
    }
  }

  /** After a full cleanup neither of its sweeps selects anything. */
  lemma {:induction false} CleanupSecondRunSelectsNothing(rs: map<Id, Reservation>, today: Day, now: Instant)
    ensures var mid := Swept(rs, Selected(rs, CompleteExpired, today), CompleteExpired);
            var fin := Swept(mid, Selected(mid, CancelExpired(now), today), CancelExpired(now));
            Selected(fin, CompleteExpired, today) == {} && Selected(fin, CancelExpired(now), today) == {}
  {
    var mid := Swept(rs, Selected(rs, CompleteExpired, today), CompleteExpired);
    var fin := Swept(mid, Selected(mid, CancelExpired(now), today), CancelExpired(now));
    SecondRunSelectsNothing(rs, CompleteExpired, today);
    SecondRunSelectsNothing(mid, CancelExpired(now), today);
    forall id | id in fin
      ensures !Selects(CompleteExpired, fin[id], today)
    {
      assert id !in Selected(mid, CompleteExpired, today);
    }
  }

  /** Rows a sweep does not select are untouched, and a pending row starting
      today is not activated. */
  lemma UnselectedUntouched(rs: map<Id, Reservation>, done: set<Id>, w: Sweep, today: Day, id: Id)
    requires done <= Selected(rs, w, today) && id in rs && !Selects(w, rs[id], today)
    ensures Swept(rs, done, w)[id] == rs[id]
  {
  }

  lemma PendingNotActivated(rs: map<Id, Reservation>, today: Day, id: Id)
    requires id in rs && rs[id].status == Pending && rs[id].startDate == today
    ensures id !in Selected(rs, ActivateToday, today)
  {
  }

  /** After a completed sweep, the car of every completed or cancelled row
      is not rented and the car of every activated row is rented, even when
      another reservation of the car is still active. */
  lemma SweptCarsFlags(cars: map<Id, Car>, rs: map<Id, Reservation>, done: set<Id>, w: Sweep, id: Id)
    requires id in done && id in rs && rs[id].car in cars
    ensures CarsAfter(cars, rs, done, w)[rs[id].car].isRented <==> w == ActivateToday
  {
    assert CarTouched(rs, done, rs[id].car);
  }
}
