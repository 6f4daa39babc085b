/** reservations/views.py: the row filter of the viewset, the create hook,
    the three status actions and the fee preview. A Django validation error
    raised by save() inside a view is not turned into a client error by the
    framework, so it surfaces as a server error (Raised). */
module ReservationViews {
  import opened Common
  import opened Cars
  import opened Users
  import opened Reservations
  import opened Storage
  import opened Signals
  import opened ReservationRecords

  /** The authenticated user making the request. */
  datatype Actor = Actor(id: Id, isStaff: bool)

  /** The refusals: 404, 403 and 400. */
  datatype Denial = NotFound | Forbidden | BadRequest

  /** What a request ends with: a 2xx carrying a value, a client error, or
      an unhandled exception (500). */
  datatype Response<T> = Success(value: T) | Refused(denial: Denial) | Raised(error: Error)

  // ---------------------------------------------------------------------
  // get_queryset and get_object

  /** Staff see every reservation; anyone else only their own. */
  function Queryset(rs: map<Id, Reservation>, actor: Actor): (q: map<Id, Reservation>)
    ensures actor.isStaff ==> q == rs
    ensures forall id :: id in q <==> id in rs && (actor.isStaff || rs[id].user == actor.id)
    ensures forall id :: id in q ==> q[id] == rs[id]
  {
    if actor.isStaff then rs else map id | id in rs && rs[id].user == actor.id :: rs[id]
  }

  /** The detail lookup goes through the filtered rows, so a row the actor
      may not see is reported missing. */
  function GetObject(rs: map<Id, Reservation>, actor: Actor, id: Id): (res: Result<Reservation, Denial>)
    ensures res.Ok? <==> id in rs && (actor.isStaff || rs[id].user == actor.id)
    ensures res.Ok? ==> res.value == rs[id]
    ensures res.Err? ==> res.error == NotFound
  {
    var q := Queryset(rs, actor);
    if id in q then Ok(q[id]) else Err(NotFound)
  }

  /** Owners always see their rows, and a non-staff actor sees nobody else's. */
  lemma QuerysetSeparatesOwners(rs: map<Id, Reservation>, actor: Actor, other: Actor)
    requires !actor.isStaff && !other.isStaff && actor.id != other.id
    ensures forall id :: id in rs && rs[id].user == actor.id ==> id in Queryset(rs, actor)
    ensures forall id :: id in Queryset(rs, actor) ==> id !in Queryset(rs, other)
  {
  }

  // ---------------------------------------------------------------------
  // The status actions, on the fetched row.

  /** activate: staff only (checked first), then confirmed only; the row
      becomes active. No start-date or one-active-per-car check is made. */
  function ActivateStep(actor: Actor, r: Reservation): (res: Response<Reservation>)
    ensures !actor.isStaff ==> res == Refused(Forbidden)
    ensures actor.isStaff && r.status != Confirmed ==> res == Refused(BadRequest)
    ensures res.Success? <==> actor.isStaff && r.status == Confirmed
    ensures res.Success? ==> res.value == r.(status := Active)
  {
    if !actor.isStaff then Refused(Forbidden)
    else if r.status != Confirmed then Refused(BadRequest)
    else Success(r.(status := Active))
  }

  /** complete: staff only (checked first), then active only; the row
      becomes completed. */
  function CompleteStep(actor: Actor, r: Reservation): (res: Response<Reservation>)
    ensures !actor.isStaff ==> res == Refused(Forbidden)
    ensures actor.isStaff && r.status != Active ==> res == Refused(BadRequest)
    ensures res.Success? <==> actor.isStaff && r.status == Active
    ensures res.Success? ==> res.value == r.(status := Completed)
  {
    if !actor.isStaff then Refused(Forbidden)
    else if r.status != Active then Refused(BadRequest)
    else Success(r.(status := Completed))
  }

  /** The row as cancel leaves it: the fee of the moment, the cancelling
      actor, the given reason (empty when none is sent), the time, and the
      cancelled status. */
  function CancelledRow(r: Reservation, actor: Actor, fee: Option<real>, now: Instant, reason: Option<string>): Reservation {
    r.(cancellationFee := fee, cancellationDate := Some(now), cancelledBy := Some(actor.id),
       cancellationReason := reason.GetOr(""), status := Cancelled)
  }

  /** cancel: staff or owner (checked first), then pending or confirmed; the
      fee is computed before the status changes, and computing it raises
      when the total must come from an unset rate. */
  function CancelStep(actor: Actor, r: Reservation, now: Instant, utcOffset: int, reason: Option<string>)
    : (res: Response<Reservation>)
    ensures !(actor.isStaff || r.user == actor.id) ==> res == Refused(Forbidden)
    ensures (actor.isStaff || r.user == actor.id) && !CanBeCancelled(r) ==> res == Refused(BadRequest)
    ensures res.Success? <==> (actor.isStaff || r.user == actor.id) && CanBeCancelled(r) && TotalOrComputed(r).Some?
    ensures res.Raised? <==> (actor.isStaff || r.user == actor.id) && CanBeCancelled(r) && TotalOrComputed(r).None?
    ensures res.Raised? ==> res.error == MissingRate
    ensures res.Success? ==>
      && GetCancellationFee(r, now, utcOffset).Ok?
      && res.value == CancelledRow(r, actor, GetCancellationFee(r, now, utcOffset).value, now, reason)
  {
    if !(actor.isStaff || r.user == actor.id) then Refused(Forbidden)
    else if !CanBeCancelled(r) then Refused(BadRequest)
    else
      match GetCancellationFee(r, now, utcOffset)
      case Err(e) => Raised(e)
      case Ok(fee) => Success(CancelledRow(r, actor, fee, now, reason))
  }

  datatype Action =
    | Activate
    | Complete
    | Cancel(now: Instant, utcOffset: int, reason: Option<string>)

  function Step(a: Action, actor: Actor, r: Reservation): (res: Response<Reservation>)
    ensures res.Success? ==> res.value.user == r.user && SameSchedule(res.value, r)
    ensures res.Success? ==> res.value.dailyRate == r.dailyRate && res.value.totalAmount == r.totalAmount
    ensures res.Success? ==> res.value.cancelledBy == r.cancelledBy || res.value.cancelledBy == Some(actor.id)
  {
    match a
    case Activate => ActivateStep(actor, r)
    case Complete => CompleteStep(actor, r)
    case Cancel(now, utcOffset, reason) => CancelStep(actor, r, now, utcOffset, reason)
  }

  /** Everything an action decides before it saves: the lookup, then the step. */
  function Decide(rs: map<Id, Reservation>, actor: Actor, id: Id, a: Action): (res: Response<Reservation>)
    ensures id !in Queryset(rs, actor) ==> res == Refused(NotFound)
    ensures id in Queryset(rs, actor) ==> res == Step(a, actor, rs[id])
  {
    match GetObject(rs, actor, id)
    case Err(d) => Refused(d)
    case Ok(r) => Step(a, actor, r)
  }

  /** The statuses an action can move a row between. */
  predicate Transition(from: Status, to: Status) {
    || (from == Confirmed && to == Active)
    || (from == Active && to == Completed)
    || ((from == Pending || from == Confirmed) && to == Cancelled)
  }

  /** Every successful action follows the lifecycle. */
  lemma StepsFollowLifecycle(a: Action, actor: Actor, r: Reservation)
    requires Step(a, actor, r).Success?
    ensures Transition(r.status, Step(a, actor, r).value.status)
  {
  }

  /** No action moves a row out of completed or cancelled. */
  lemma TerminalRowsAreFinal(rs: map<Id, Reservation>, actor: Actor, id: Id, a: Action)
    requires id in rs && rs[id].status.IsTerminal()
    ensures !Decide(rs, actor, id, a).Success?
  {
    if id in Queryset(rs, actor) {
      assert !CanBeCancelled(rs[id]);
    }
  }

  /** A completed row cannot be reactivated, not even by staff. */
  lemma CompletedCannotBeReactivated(rs: map<Id, Reservation>, actor: Actor, id: Id)
    requires id in rs && rs[id].status == Completed && actor.isStaff
    ensures Decide(rs, actor, id, Activate) == Refused(BadRequest)
  {
  }

  /** A non-staff actor asking for someone else's row is told it does not
      exist, whatever the action. */
  lemma OthersRowsAreNotFound(rs: map<Id, Reservation>, actor: Actor, id: Id, a: Action)
    requires !actor.isStaff && id in rs && rs[id].user != actor.id
    ensures Decide(rs, actor, id, a) == Refused(NotFound)
  {
  }

  /** Because the lookup already filters by owner, cancel's permission
      refusal can never be returned; a non-staff owner still gets 403 from
      activate and complete. */
  lemma CancelNeverForbidden(rs: map<Id, Reservation>, actor: Actor, id: Id, now: Instant, utcOffset: int,
                             reason: Option<string>)
    ensures Decide(rs, actor, id, Cancel(now, utcOffset, reason)) != Refused(Forbidden)
  {
  }

  lemma OwnerCannotActivate(rs: map<Id, Reservation>, actor: Actor, id: Id)
    requires !actor.isStaff && id in rs && rs[id].user == actor.id
    ensures Decide(rs, actor, id, Activate) == Refused(Forbidden)
    ensures Decide(rs, actor, id, Complete) == Refused(Forbidden)
  {
  }

  /** A successful cancellation records a fee between nothing and the whole
      total. */
  lemma CancelledFeeWithinTotal(actor: Actor, r: Reservation, now: Instant, utcOffset: int, reason: Option<string>)
    requires CancelStep(actor, r, now, utcOffset, reason).Success? && WellFormedRow(r)
    ensures var c := CancelStep(actor, r, now, utcOffset, reason).value;
            c.cancellationFee.Some? && 0.0 <= c.cancellationFee.value <= r.totalAmount.value as real
  {
    StoredTotalPositive(r);
    FeeWithinTotal(r, now, utcOffset);
  }

  /** On a stored row the fee can always be computed, so cancel never raises. */
  lemma StoredRowCancelNeverRaises(actor: Actor, r: Reservation, now: Instant, utcOffset: int, reason: Option<string>)
    requires WellFormedRow(r)
    ensures !CancelStep(actor, r, now, utcOffset, reason).Raised?
  {
  }

  /** Once an action has decided to change a stored row, its save succeeds
      exactly when the owner may still book: the row is live, nothing blocks
      it and its total is kept. */
  lemma DecidedActionSavesIffOwnerMayReserve(rs: map<Id, Reservation>, users: map<Id, Account>,
                                             profiles: map<Id, UserProfile>, cars: map<Id, Car>,
                                             actor: Actor, id: Id, a: Action, today: Day)
    requires NoLiveOverlap(rs) && id in rs && WellFormedRow(rs[id])
    requires rs[id].user in users && rs[id].car in cars
    requires Decide(rs, actor, id, a).Success?
    ensures var updated := Decide(rs, actor, id, a).value;
            && TotalOrComputed(updated) == rs[id].totalAmount
            && (CleanSucceeds(rs, users, profiles, cars, Some(id), updated, today) <==>
                OwnerMayReserve(users[rs[id].user], ProfileOf(profiles, rs[id].user)))
  {
    var updated := Decide(rs, actor, id, a).value;
    assert rs[id].status.IsLive();
    ResaveSucceedsIffOwnerMayReserve(rs, users, profiles, cars, id, updated, today);
  }

  // ---------------------------------------------------------------------
  // The fee preview.

  /** cancellation_fee: 400 exactly when there is no fee to show (the row
      cannot be cancelled), otherwise the fee; a total that must come from an
      unset rate raises. */
  function FeePreview(r: Reservation, now: Instant, utcOffset: int): (res: Response<real>)
    ensures res.Refused? ==> res.denial == BadRequest
  {
    match GetCancellationFee(r, now, utcOffset)
    case Err(e) => Raised(e)
    case Ok(None) => Refused(BadRequest)
    case Ok(Some(fee)) => Success(fee)
  }

  lemma FeePreviewMatchesFee(r: Reservation, now: Instant, utcOffset: int)
    ensures FeePreview(r, now, utcOffset) == Refused(BadRequest) <==> GetCancellationFee(r, now, utcOffset) == Ok(None)
    ensures forall fee :: FeePreview(r, now, utcOffset) == Success(fee) <==> GetCancellationFee(r, now, utcOffset) == Ok(Some(fee))
    ensures FeePreview(r, now, utcOffset).Refused? <==> !CanBeCancelled(r)
  {
  }

  /** What the preview shows is what a cancellation at the same moment records. */
  lemma PreviewIsRecordedFee(actor: Actor, r: Reservation, now: Instant, utcOffset: int, reason: Option<string>)
    requires CancelStep(actor, r, now, utcOffset, reason).Success?
    ensures FeePreview(r, now, utcOffset).Success?
    ensures CancelStep(actor, r, now, utcOffset, reason).value.cancellationFee == Some(FeePreview(r, now, utcOffset).value)
  {
  }

  function CancellationFeeView(rs: map<Id, Reservation>, actor: Actor, id: Id, now: Instant, utcOffset: int)
    : (res: Response<real>)
    ensures id !in Queryset(rs, actor) ==> res == Refused(NotFound)
    ensures id in Queryset(rs, actor) ==> res == FeePreview(rs[id], now, utcOffset)
  {
    match GetObject(rs, actor, id)
    case Err(d) => Refused(d)
    case Ok(r) => FeePreview(r, now, utcOffset)
  }

  // ---------------------------------------------------------------------
  // Creation.

  /** The writable fields of a create request. The owner and the status are
      only writable by staff; the cancellation reason is writable by anyone.
      The total, the fee, the cancellation date and the canceller are
      read-only and start unset. */
  datatype Submission = Submission(
    user: Option<Id>,
    car: Id,
    startDate: Day,
    endDate: Day,
    dailyRate: Option<Cents>,
    status: Option<Status>,
    cancellationReason: string)

  /** perform_create: staff create what they submit (owner required, status
      defaulting to pending); anyone else creates a confirmed reservation
      for themselves, whatever they submitted as owner or status. */
  function CreateInstance(actor: Actor, s: Submission): (res: Result<Reservation, Denial>)
    ensures !actor.isStaff ==> res.Ok? && res.value.user == actor.id && res.value.status == Confirmed
    ensures actor.isStaff ==> (res.Ok? <==> s.user.Some?)
    ensures actor.isStaff && res.Ok? ==> res.value.user == s.user.value && res.value.status == s.status.GetOr(Pending)
    ensures res.Err? ==> res.error == BadRequest
    ensures res.Ok? ==>
      && res.value.car == s.car && res.value.startDate == s.startDate && res.value.endDate == s.endDate
      && res.value.dailyRate == s.dailyRate && res.value.cancellationReason == s.cancellationReason
      && res.value.totalAmount.None? && res.value.cancellationFee.None?
      && res.value.cancellationDate.None? && res.value.cancelledBy.None?
  {
    var owner := if actor.isStaff then s.user else Some(actor.id);
    var status := if actor.isStaff then s.status.GetOr(Pending) else Confirmed;
    if owner.None? then Err(BadRequest)
    else Ok(Reservation(owner.value, s.car, s.startDate, s.endDate, s.dailyRate, None, status, None, None,
                        s.cancellationReason, None))
  }

  /** What a non-staff actor submits as owner or status makes no difference. */
  lemma NonStaffOwnerAndStatusIgnored(actor: Actor, s: Submission, user: Option<Id>, status: Option<Status>)
    requires !actor.isStaff
    ensures CreateInstance(actor, s.(user := user, status := status)) == CreateInstance(actor, s)
  {
  }

  // ---------------------------------------------------------------------
  // The endpoints on the store.

  /** `reservation.save()` at the end of an action, and the saved row. */
  method SaveAction(db: Store, id: Id, updated: Reservation, today: Day) returns (resp: Response<Reservation>)
    requires db.Valid() && id in db.reservations
    requires updated.user in db.users && updated.car in db.cars
    requires updated.cancelledBy.Some? ==> updated.cancelledBy.value in db.users
    requires TotalNotNegative(updated)
    modifies db
    ensures db.Valid()
    ensures resp.Success? <==>
      CleanSucceeds(old(db.reservations), old(db.users), old(db.profiles), old(db.cars), Some(id), updated, today) &&
      TotalOrComputed(updated).Some?
    ensures resp.Success? ==>
      && resp.value == updated.(totalAmount := TotalOrComputed(updated))
      && db.reservations == old(db.reservations)[id := resp.value]
      && db.cars == old(db.cars)[updated.car := CarAfterSave(old(db.cars)[updated.car], updated.status)]
    ensures !resp.Success? ==> resp.Raised? && db.reservations == old(db.reservations) && db.cars == old(db.cars)
    ensures db.users == old(db.users) && db.profiles == old(db.profiles)
    ensures db.nextUserId == old(db.nextUserId) && db.nextReservationId == old(db.nextReservationId)
  {
    var saved := Save(db, Some(id), updated, None, today);
    if saved.Err? {
      return Raised(saved.error);
    }
    return Success(db.reservations[id]);
  }

  /** activate, complete and cancel on the store: look the row up, decide,
      then save the updated row; nothing is written unless the save succeeds. */
  method PerformAction(db: Store, actor: Actor, id: Id, a: Action, today: Day) returns (resp: Response<Reservation>)
    requires db.Valid() && actor.id in db.users && actor.isStaff == db.users[actor.id].isStaff
    modifies db
    ensures db.Valid()
    ensures var decision := Decide(old(db.reservations), actor, id, a);
      && (!decision.Success? ==> resp == decision)
      && (decision.Success? ==> (resp.Success? <==>
            CleanSucceeds(old(db.reservations), old(db.users), old(db.profiles), old(db.cars), Some(id), decision.value, today) &&
            TotalOrComputed(decision.value).Some?))
      && (decision.Success? && resp.Success? ==>
            && resp.value == decision.value.(totalAmount := TotalOrComputed(decision.value))
            && db.reservations == old(db.reservations)[id := resp.value]
            && db.cars == old(db.cars)[decision.value.car := CarAfterSave(old(db.cars)[decision.value.car], decision.value.status)])
      && (decision.Success? && !resp.Success? ==> resp.Raised?)
    ensures !resp.Success? ==> db.reservations == old(db.reservations) && db.cars == old(db.cars)
    ensures db.users == old(db.users) && db.profiles == old(db.profiles)
    ensures db.nextUserId == old(db.nextUserId) && db.nextReservationId == old(db.nextReservationId)
  {
    var decision := Decide(db.reservations, actor, id, a);
    if !decision.Success? {
      return decision;
    }
    resp := SaveAction(db, id, decision.value, today);
  }

  /** The create endpoint: build the instance, check that the owner and the
      car exist (the serializer's key lookup), then save it as a new row. */
  method Create(db: Store, actor: Actor, s: Submission, today: Day) returns (resp: Response<Id>)
    requires db.Valid()
    modifies db
    ensures db.Valid()
    ensures var inst := CreateInstance(actor, s);
      && (inst.Err? ==> resp == Refused(inst.error))
      && (inst.Ok? && (inst.value.user !in old(db.users) || inst.value.car !in old(db.cars)) ==> resp == Refused(BadRequest))
      && (resp.Success? ==>
            && inst.Ok? && resp.value == old(db.nextReservationId)
            && CleanSucceeds(old(db.reservations), old(db.users), old(db.profiles), old(db.cars), None, inst.value, today)
            && db.reservations == old(db.reservations)[resp.value := inst.value.(totalAmount := TotalOrComputed(inst.value))]
            && db.cars == old(db.cars)[s.car := CarAfterSave(old(db.cars)[s.car], inst.value.status)])
      && (resp.Raised? ==> inst.Ok? && inst.value.user in old(db.users) && inst.value.car in old(db.cars))
      && (inst.Ok? && inst.value.user in old(db.users) && inst.value.car in old(db.cars) ==>
            (resp.Success? <==>
               CleanSucceeds(old(db.reservations), old(db.users), old(db.profiles), old(db.cars), None, inst.value, today) &&
               TotalOrComputed(inst.value).Some?))
      && (resp.Raised? && resp.error.Invalid? ==>
            CleanReports(old(db.reservations), old(db.users), old(db.profiles), old(db.cars), None, inst.value, today,
                         Fail(resp.error.reason)))
      && (resp.Raised? && resp.error.MissingRate? ==>
            CleanSucceeds(old(db.reservations), old(db.users), old(db.profiles), old(db.cars), None, inst.value, today) &&
            TotalOrComputed(inst.value).None?)
    ensures resp.Success? && !actor.isStaff ==>
      db.reservations[resp.value].user == actor.id && db.reservations[resp.value].status == Confirmed
    ensures !resp.Success? ==> db.reservations == old(db.reservations) && db.cars == old(db.cars)
    ensures db.users == old(db.users) && db.profiles == old(db.profiles) && db.nextUserId == old(db.nextUserId)
  {
    var inst := CreateInstance(actor, s);
    if inst.Err? {
      return Refused(inst.error);
    }
    var r := inst.value;
    if r.user !in db.users || r.car !in db.cars {
      return Refused(BadRequest);
    }
    var saved := Save(db, None, r, None, today);
    if saved.Err? {
      return Raised(saved.error);
    }
    return Success(saved.value);
  }
}
