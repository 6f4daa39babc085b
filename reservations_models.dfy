/** The value-level part of reservations/models.py: the reservation record,
    its duration and price, the cancellation-fee rule, the guards of clean()
    and the date-overlap relation that the conflict check scans for. */
module Reservations {
  import opened Common
  import opened Cars
  import opened Users

  datatype Status = Pending | Confirmed | Active | Completed | Cancelled {
    /** The statuses whose dates block the car: pending, confirmed, active. */
    predicate IsLive() {
      this == Pending || this == Confirmed || this == Active
    }

    predicate IsTerminal() {
      this == Completed || this == Cancelled
    }
  }

  /** A reservation row. The daily rate and the total are nullable columns;
      the cancellation fee is kept exactly (it may hold half a cent, as the
      decimal product total x 0.50 does). The timestamps are not modelled. */
  datatype Reservation = Reservation(
    user: Id,
    car: Id,
    startDate: Day,
    endDate: Day,
    dailyRate: Option<Cents>,
    totalAmount: Option<Cents>,
    status: Status,
    cancellationFee: Option<real>,
    cancellationDate: Option<Instant>,
    cancellationReason: string,
    cancelledBy: Option<Id>)

  /** Why clean() refused a reservation. */
  datatype ValidationError =
    | StartNotBeforeEnd
    | NonPositiveRate
    | StartInPast
    | EndInPast
    | UserInactive
    | MissingProfile
    | NotEligible
    | NotInFleet
    | CarDamaged
    | CarUnderMaintenance
    | DateConflict(blocking: Id)

  /** What a save can raise: a validation error, or the type error of
      multiplying an unset daily rate by the number of days. */
  datatype Error = Invalid(reason: ValidationError) | MissingRate

  // ---------------------------------------------------------------------
  // Duration and price.

  /** The whole days from start to end, negative when the end comes first;
      positive exactly when the dates are in order. */
  function GetDurationDays(r: Reservation): (days: int)
    ensures days > 0 <==> r.startDate < r.endDate
  {
    r.endDate - r.startDate
  }

  /** Rate times days; None stands for the type error raised when the rate
      is unset. */
  function GetTotalAmount(r: Reservation): (t: Option<Cents>)
    ensures t.Some? <==> r.dailyRate.Some?
    ensures t.Some? ==> t.value == r.dailyRate.value * GetDurationDays(r)
  {
    match r.dailyRate
    case None => None
    case Some(rate) => Some(rate * GetDurationDays(r))
  }

  /** The total of reservations/tests.py: 100.00 a day for 3 days is 300.00. */
  lemma TotalAmountExample(r: Reservation)
    requires r.dailyRate == Some(10000) && r.endDate == r.startDate + 3
    ensures GetTotalAmount(r) == Some(30000)
  {
  }

  /** The cancellable statuses are the live ones that have not started:
      an active, completed or cancelled reservation cannot be cancelled. */
  predicate CanBeCancelled(r: Reservation): (ok: bool)
    ensures ok <==> r.status.IsLive() && r.status != Active
    ensures r.status.IsTerminal() ==> !ok
  {
    r.status == Pending || r.status == Confirmed
  }

  /** The stored total is falsy: unset or zero. */
  predicate TotalUnset(r: Reservation) {
    r.totalAmount.None? || r.totalAmount == Some(0)
  }

  /** `total_amount or get_total_amount()`: the stored total when it is set
      and non-zero, otherwise the computed one (None: the computation raised).
      save() stores this, and the fee is computed from it. */
  function TotalOrComputed(r: Reservation): (t: Option<Cents>)
    ensures !TotalUnset(r) ==> t == r.totalAmount
    ensures TotalUnset(r) ==> t == GetTotalAmount(r)
  {
    if TotalUnset(r) then GetTotalAmount(r) else r.totalAmount
  }

  /** A total once filled in is never recomputed: filling it again changes
      nothing, even when the rate has been edited since. */
  lemma TotalNeverRecomputed(r: Reservation, newRate: Option<Cents>)
    requires TotalOrComputed(r).Some?
    ensures TotalOrComputed(r.(totalAmount := TotalOrComputed(r))) == TotalOrComputed(r)
    ensures !TotalUnset(r) ==> TotalOrComputed(r.(dailyRate := newRate)) == r.totalAmount
  {
  }

  // ---------------------------------------------------------------------
  // Cancellation fee.

  /** The instant at which a start date begins (midnight) in a zone the
      given number of seconds ahead of the epoch's zone. */
  function StartInstant(d: Day, utcOffset: int): (t: Instant)
    ensures (t + utcOffset) % SecondsPerDay == 0 && (t + utcOffset) / SecondsPerDay == d
  {
    d * SecondsPerDay - utcOffset
  }

  /** The fee for cancelling now: none (Ok(None)) unless pending or
      confirmed; otherwise 0, half or all of the total by the hours left
      before the start. Err(MissingRate) stands for the type error of a
      total that has to be computed from an unset rate. */
  function GetCancellationFee(r: Reservation, now: Instant, utcOffset: int): (fee: Result<Option<real>, Error>)
    ensures !CanBeCancelled(r) ==> fee == Ok(None)
    ensures CanBeCancelled(r) ==> (fee.Err? <==> TotalOrComputed(r).None?)
    ensures fee.Err? ==> fee.error == MissingRate
    ensures fee.Ok? && fee.value.Some? ==> CanBeCancelled(r)
  {
    if !CanBeCancelled(r) then Ok(None)
    else
      var hoursToStart := (StartInstant(r.startDate, utcOffset) - now) as real / 3600.0;
      match TotalOrComputed(r)
      case None => Err(MissingRate)
      case Some(total) =>
        if hoursToStart >= 48.0 then Ok(Some(0.0))
        else if hoursToStart >= 24.0 then Ok(Some(total as real * 0.50))
        else Ok(Some(total as real))
  }

  /** The three bands in whole seconds: at least 172800 s (48 h) before the
      start nothing, from 86400 s (24 h) half, later (or after the start) all. */
  lemma FeeBands(r: Reservation, now: Instant, utcOffset: int)
    requires CanBeCancelled(r) && TotalOrComputed(r).Some?
    ensures var secs := StartInstant(r.startDate, utcOffset) - now;
            var total := TotalOrComputed(r).value as real;
            GetCancellationFee(r, now, utcOffset) ==
              Ok(Some(if secs >= 172800 then 0.0 else if secs >= 86400 then total / 2.0 else total))
  {
    var secs := StartInstant(r.startDate, utcOffset) - now;
    var hours := secs as real / 3600.0;
    assert hours >= 48.0 <==> secs >= 172800;
    assert hours >= 24.0 <==> secs >= 86400;
  }

  /** The fee never exceeds the total and is never negative. */
  lemma FeeWithinTotal(r: Reservation, now: Instant, utcOffset: int)
    requires CanBeCancelled(r) && TotalOrComputed(r).Some? && TotalOrComputed(r).value >= 0
    ensures var fee := GetCancellationFee(r, now, utcOffset);
            fee.Ok? && fee.value.Some? &&
            0.0 <= fee.value.value <= TotalOrComputed(r).value as real
  {
    FeeBands(r, now, utcOffset);
  }

  /** Cancelling later never costs less. */
  lemma FeeGrowsAsStartNears(r: Reservation, now1: Instant, now2: Instant, utcOffset: int)
    requires CanBeCancelled(r) && TotalOrComputed(r).Some? && TotalOrComputed(r).value >= 0
    requires now1 <= now2
    ensures GetCancellationFee(r, now1, utcOffset).value.value <= GetCancellationFee(r, now2, utcOffset).value.value
  {
    FeeBands(r, now1, utcOffset);
    FeeBands(r, now2, utcOffset);
  }

  /** The fixtures of reservations/tests.py: a pending reservation with a
      total of 200.00 whose start date is k days after the current (UTC)
      date costs nothing for k = 3, 100.00 for k = 2 and 200.00 for k = 1 -
      provided the clock is not exactly at midnight, where each band moves. */
  lemma FeeExamples(r: Reservation, now: Instant, k: int)
    requires r.status == Pending && r.totalAmount == Some(20000)
    requires now % SecondsPerDay != 0 && r.startDate == now / SecondsPerDay + k
    requires k == 1 || k == 2 || k == 3
    ensures k == 3 ==> GetCancellationFee(r, now, 0) == Ok(Some(0.0))
    ensures k == 2 ==> GetCancellationFee(r, now, 0) == Ok(Some(10000.0))
    ensures k == 1 ==> GetCancellationFee(r, now, 0) == Ok(Some(20000.0))
  {
    FeeBands(r, now, 0);
    var secs := StartInstant(r.startDate, 0) - now;
    assert secs == k * SecondsPerDay - now % SecondsPerDay;
  }

  lemma AtMidnightTwoDaysAheadIsFree(r: Reservation, now: Instant)
    requires r.status == Pending && r.totalAmount == Some(20000)
    requires now % SecondsPerDay == 0 && r.startDate == now / SecondsPerDay + 2
    ensures GetCancellationFee(r, now, 0) == Ok(Some(0.0))
  {
    FeeBands(r, now, 0);
  }

  // ---------------------------------------------------------------------
  // The guards of clean() that precede the conflict check, in their order.

  function ProfileOf(profiles: map<Id, UserProfile>, user: Id): Option<UserProfile> {
    if user in profiles then Some(profiles[user]) else None
  }

  /** The order in which clean() tries its guards. */
  const GuardOrder: seq<ValidationError> := [
    StartNotBeforeEnd, NonPositiveRate, StartInPast, EndInPast,
    UserInactive, MissingProfile, NotEligible,
    NotInFleet, CarDamaged, CarUnderMaintenance]

  function GuardIndex(e: ValidationError): nat {
    match e
    case StartNotBeforeEnd => 0
    case NonPositiveRate => 1
    case StartInPast => 2
    case EndInPast => 3
    case UserInactive => 4
    case MissingProfile => 5
    case NotEligible => 6
    case NotInFleet => 7
    case CarDamaged => 8
    case CarUnderMaintenance => 9
    case DateConflict(_) => 10
  }

  /** Whether guard g rejects the reservation. The past-date and the car
      checks apply to new reservations only; the car's rented flag is never
      looked at. */
  predicate Violates(g: ValidationError, r: Reservation, isNew: bool, today: Day,
                     user: Account, profile: Option<UserProfile>, car: Car)
  {
    match g
    case StartNotBeforeEnd => r.startDate >= r.endDate
    case NonPositiveRate => r.dailyRate.Some? && r.dailyRate.value <= 0
    case StartInPast => isNew && r.startDate < today
    case EndInPast => isNew && r.endDate < today
    case UserInactive => !user.isActive
    case MissingProfile => profile.None?
    case NotEligible => profile.Some? && !CanMakeReservations(profile.value)
    case NotInFleet => isNew && !car.inFleet
    case CarDamaged => isNew && car.isDamaged
    case CarUnderMaintenance => isNew && car.isMaintenance
    case DateConflict(_) => false
  }

  /** The guards of clean() before the conflict check, failing fast: the
      error reported is the first guard, in GuardOrder, that rejects. */
  function CleanGuards(r: Reservation, isNew: bool, today: Day,
                       user: Account, profile: Option<UserProfile>, car: Car): (res: Outcome<ValidationError>)
    ensures res.Pass? ==>
      forall g :: g in GuardOrder ==> !Violates(g, r, isNew, today, user, profile, car)
    ensures res.Fail? ==>
      && GuardIndex(res.error) < |GuardOrder|
      && GuardOrder[GuardIndex(res.error)] == res.error
      && Violates(res.error, r, isNew, today, user, profile, car)
      && forall i :: 0 <= i < GuardIndex(res.error) ==> !Violates(GuardOrder[i], r, isNew, today, user, profile, car)
  {
    if r.startDate >= r.endDate then Fail(StartNotBeforeEnd)
    else if r.dailyRate.Some? && r.dailyRate.value <= 0 then Fail(NonPositiveRate)
    else if isNew && r.startDate < today then Fail(StartInPast)
    else if isNew && r.endDate < today then Fail(EndInPast)
    else if !user.isActive then Fail(UserInactive)
    else if profile.None? then Fail(MissingProfile)
    else if !CanMakeReservations(profile.value) then Fail(NotEligible)
    else if isNew && !car.inFleet then Fail(NotInFleet)
    else if isNew && car.isDamaged then Fail(CarDamaged)
    else if isNew && car.isMaintenance then Fail(CarUnderMaintenance)
    else Pass
  }

  /** The guards pass exactly when none of them rejects. */
  lemma GuardsPassIffNoneRejects(r: Reservation, isNew: bool, today: Day,
                                 user: Account, profile: Option<UserProfile>, car: Car)
    ensures CleanGuards(r, isNew, today, user, profile, car).Pass? <==>
            forall g :: g in GuardOrder ==> !Violates(g, r, isNew, today, user, profile, car)
  {
    var res := CleanGuards(r, isNew, today, user, profile, car);
    if res.Fail? {
      assert res.error in GuardOrder;
    }
  }

  /** A reservation that passes the guards lasts at least one day and, when
      it has a rate, costs at least one day's rate. */
  lemma PassedGuardsHavePositiveDuration(r: Reservation, isNew: bool, today: Day,
                                         user: Account, profile: Option<UserProfile>, car: Car)
    requires CleanGuards(r, isNew, today, user, profile, car).Pass?
    ensures GetDurationDays(r) >= 1
    ensures r.dailyRate.Some? ==> GetTotalAmount(r).value >= r.dailyRate.value > 0
  {
    assert StartNotBeforeEnd in GuardOrder && NonPositiveRate in GuardOrder;
    if r.dailyRate.Some? {
      var rate := r.dailyRate.value;
      var days := GetDurationDays(r);
      assert rate * days == rate * (days - 1) + rate;
      assert rate * (days - 1) >= 0;
    }
  }

  /** The owner may book: an active account with a profile that may reserve. */
  predicate OwnerMayReserve(user: Account, profile: Option<UserProfile>) {
    user.isActive && profile.Some? && CanMakeReservations(profile.value)
  }

  /** For a row that already has a key and whose dates and rate once passed
      the guards, the guards now pass exactly when the owner may still book;
      otherwise they report the owner's problem. */
  lemma ExistingRowGuardsCheckOnlyOwner(r: Reservation, today: Day, user: Account,
                                        profile: Option<UserProfile>, car: Car)
    requires r.startDate < r.endDate && (r.dailyRate.None? || r.dailyRate.value > 0)
    ensures CleanGuards(r, false, today, user, profile, car).Pass? <==> OwnerMayReserve(user, profile)
    ensures CleanGuards(r, false, today, user, profile, car).Fail? ==>
      CleanGuards(r, false, today, user, profile, car).error in {UserInactive, MissingProfile, NotEligible}
  {
  }

  /** A profile that may not reserve makes clean() reject, whatever else holds. */
  lemma IneligibleProfileRejected(r: Reservation, isNew: bool, today: Day,
                                  user: Account, p: UserProfile, car: Car)
    requires !CanMakeReservations(p)
    ensures CleanGuards(r, isNew, today, user, Some(p), car).Fail?
  {
    assert NotEligible in GuardOrder;
  }

  /** The rented flag is never consulted, and for a reservation that already
      has a key neither today's date nor the car's flags matter. */
  lemma GuardsIgnoreRentedFlag(r: Reservation, isNew: bool, today: Day,
                               user: Account, profile: Option<UserProfile>, car: Car, rented: bool)
    ensures CleanGuards(r, isNew, today, user, profile, car.(isRented := rented)) ==
            CleanGuards(r, isNew, today, user, profile, car)
  {
  }

  lemma ExistingIgnoresDatesAndCar(r: Reservation, today1: Day, today2: Day,
                                   user: Account, profile: Option<UserProfile>, car1: Car, car2: Car)
    ensures CleanGuards(r, false, today1, user, profile, car1) ==
            CleanGuards(r, false, today2, user, profile, car2)
  {
  }

  /** What every stored row satisfies: it passed the date and rate guards
      when it was first written, and its total was filled then with a
      positive rate times at least one day. */
  predicate WellFormedRow(r: Reservation) {
    && r.startDate < r.endDate
    && (r.dailyRate.None? || r.dailyRate.value > 0)
    && r.totalAmount.Some? && r.totalAmount.value > 0
  }

  /** The total an instance arrives with at save(): unset, or not negative.
      Clients cannot write it, so it is either unset or a stored total. */
  predicate TotalNotNegative(r: Reservation) {
    r.totalAmount.None? || r.totalAmount.value >= 0
  }

  /** A stored row's fee is computed from its own positive total. */
  lemma StoredTotalPositive(r: Reservation)
    requires WellFormedRow(r)
    ensures TotalOrComputed(r) == r.totalAmount && r.totalAmount.value > 0
  {
  }

  /** A reservation that passes the guards and whose total can be filled is
      well formed once the total is filled, and its total is then kept. */
  lemma FilledRowWellFormed(r: Reservation, isNew: bool, today: Day,
                            user: Account, profile: Option<UserProfile>, car: Car)
    requires CleanGuards(r, isNew, today, user, profile, car).Pass? && TotalOrComputed(r).Some?
    requires TotalNotNegative(r)
    ensures WellFormedRow(r.(totalAmount := TotalOrComputed(r)))
    ensures TotalOrComputed(r.(totalAmount := TotalOrComputed(r))) == TotalOrComputed(r)
  {
    PassedGuardsHavePositiveDuration(r, isNew, today, user, profile, car);
  }

  // ---------------------------------------------------------------------
  // Date conflicts.

  /** Inclusive overlap of [s1, e1] and [s2, e2]: a stay ending on a day
      conflicts with one starting that day. */
  predicate Overlaps(s1: Day, e1: Day, s2: Day, e2: Day) {
    s1 <= e2 && e1 >= s2
  }

  predicate InRange(d: Day, s: Day, e: Day) {
    s <= d <= e
  }

  /** For proper ranges, overlap means the two inclusive ranges share a calendar day. */
  lemma OverlapsIffSharedDay(s1: Day, e1: Day, s2: Day, e2: Day)
    requires s1 <= e1 && s2 <= e2
    ensures Overlaps(s1, e1, s2, e2) <==> exists d :: InRange(d, s1, e1) && InRange(d, s2, e2)
  {
    if Overlaps(s1, e1, s2, e2) {
      var d := if s1 <= s2 then s2 else s1;
      assert InRange(d, s1, e1) && InRange(d, s2, e2);
    }
  }

  /** `other` holds r's car on some of r's days. */
  predicate Blocks(other: Reservation, r: Reservation) {
    other.car == r.car && other.status.IsLive() &&
    Overlaps(r.startDate, r.endDate, other.startDate, other.endDate)
  }

  /** Some row other than r's own (key pk) blocks r. Without a key nothing
      is excluded. */
  predicate HasConflict(rs: map<Id, Reservation>, pk: Option<Id>, r: Reservation) {
    exists id :: id in rs && pk != Some(id) && Blocks(rs[id], r)
  }

  /** No two distinct live reservations of the same car overlap. */
  predicate NoLiveOverlap(rs: map<Id, Reservation>) {
    forall a, b :: a in rs && b in rs && a != b && rs[b].status.IsLive() ==> !Blocks(rs[a], rs[b])
  }

  /** Blocking between live reservations is symmetric. */
  lemma BlocksSymmetric(a: Reservation, b: Reservation)
    requires a.status.IsLive() && b.status.IsLive()
    ensures Blocks(a, b) <==> Blocks(b, a)
  {
  }

  /** Completed and cancelled reservations never block. */
  lemma TerminalNeverBlocks(rs: map<Id, Reservation>, pk: Option<Id>, r: Reservation)
    requires forall id :: id in rs && rs[id].car == r.car ==> rs[id].status.IsTerminal()
    ensures !HasConflict(rs, pk, r)
  {
  }

  /** Everything clean() checks, as one condition on the tables. */
  predicate CleanSucceeds(rs: map<Id, Reservation>, users: map<Id, Account>, profiles: map<Id, UserProfile>,
                          cars: map<Id, Car>, pk: Option<Id>, r: Reservation, today: Day)
    requires r.user in users && r.car in cars
  {
    CleanGuards(r, pk.None?, today, users[r.user], ProfileOf(profiles, r.user), cars[r.car]).Pass? &&
    !HasConflict(rs, pk, r)
  }

  // ---------------------------------------------------------------------
  // Saving with a column list.

  /** The columns the sweeper names in `update_fields`. */
  datatype Column = StatusColumn | CancellationDateColumn | CancellationReasonColumn

  /** The row written by a save limited to the given columns: those columns
      come from the updated instance, all others stay as stored. */
  function Persisted(stored: Reservation, updated: Reservation, only: set<Column>): (p: Reservation)
    ensures p.status == (if StatusColumn in only then updated.status else stored.status)
    ensures p.cancellationDate == (if CancellationDateColumn in only then updated.cancellationDate else stored.cancellationDate)
    ensures p.cancellationReason == (if CancellationReasonColumn in only then updated.cancellationReason else stored.cancellationReason)
    ensures p.(status := stored.status, cancellationDate := stored.cancellationDate,
               cancellationReason := stored.cancellationReason) == stored
  {
    stored.(
      status := if StatusColumn in only then updated.status else stored.status,
      cancellationDate := if CancellationDateColumn in only then updated.cancellationDate else stored.cancellationDate,
      cancellationReason := if CancellationReasonColumn in only then updated.cancellationReason else stored.cancellationReason)
  }

  /** Same car and same dates: what the conflict check looks at. */
  predicate SameSchedule(a: Reservation, b: Reservation) {
    a.car == b.car && a.startDate == b.startDate && a.endDate == b.endDate
  }
}
