/** The vehicle record of cars/models.py: its operational flags, the status
    strings derived from them, the price display and the save-time validation. */
module Cars {
  import opened Common

  /** A vehicle. The image and the two timestamps are not modelled. */
  datatype Car = Car(
    brand: string,
    model: string,
    year: int,
    color: string,
    dailyRate: Cents,
    inFleet: bool,
    isRented: bool,
    isDamaged: bool,
    isMaintenance: bool)

  /** Whether the vehicle can be rented right now: exactly when it is in the
      fleet and its status label says Available. */
  predicate CanBeRented(c: Car): (ok: bool)
    ensures ok <==> c.inFleet && GetStatus(c) == "Available"
  {
    c.inFleet && !c.isRented && !c.isDamaged && !c.isMaintenance
  }

  /** The short status label: maintenance wins over damage, damage over
      rented; the in-fleet flag plays no part. */
  function GetStatus(c: Car): (s: string)
    ensures s == "In Maintenance" <==> c.isMaintenance
    ensures s == "Damaged" <==> !c.isMaintenance && c.isDamaged
    ensures s == "Rented" <==> !c.isMaintenance && !c.isDamaged && c.isRented
    ensures s == "Available" <==> !c.isMaintenance && !c.isDamaged && !c.isRented
  {
    if c.isMaintenance then "In Maintenance"
    else if c.isDamaged then "Damaged"
    else if c.isRented then "Rented"
    else "Available"
  }

  lemma StatusIgnoresFleet(c: Car, inFleet: bool)
    ensures GetStatus(c.(inFleet := inFleet)) == GetStatus(c)
  {
  }

  /** The longer rental label. It says "Available for Rental" exactly when the
      car can be rented; otherwise it names the reason in the same priority as
      GetStatus, and a car that is only out of the fleet is "Not Available". */
  function GetRentalStatus(c: Car): (s: string)
    ensures s == "Available for Rental" <==> CanBeRented(c)
  {
    if !CanBeRented(c) then
      if c.isMaintenance then "In Maintenance - Not Available"
      else if c.isDamaged then "Damaged - Not Available"
      else if c.isRented then "Rented - Not Available"
      else "Not Available"
    else
      "Available for Rental"
  }

  /** When the car cannot be rented, the rental label is the status label
      with " - Not Available" appended, or plain "Not Available" when the only
      reason is that the car is out of the fleet. */
  lemma RentalStatusFollowsStatus(c: Car)
    requires !CanBeRented(c)
    ensures GetRentalStatus(c) ==
      if GetStatus(c) == "Available" then "Not Available" else GetStatus(c) + " - Not Available"
  {
    if c.isMaintenance {
      assert GetStatus(c) + " - Not Available" == "In Maintenance - Not Available";
    } else if c.isDamaged {
      assert GetStatus(c) + " - Not Available" == "Damaged - Not Available";
    } else if c.isRented {
      assert GetStatus(c) + " - Not Available" == "Rented - Not Available";
    }
  }

  lemma OutOfFleetIsNotAvailable(c: Car)
    requires !c.inFleet && !c.isMaintenance && !c.isDamaged && !c.isRented
    ensures GetRentalStatus(c) == "Not Available"
  {
  }

  // ---------------------------------------------------------------------
  // Price display: "$" followed by the rate with exactly two decimals.

  predicate IsDigit(ch: char) {
    '0' <= ch <= '9'
  }

  predicate AllDigits(s: string) {
    forall i :: 0 <= i < |s| ==> IsDigit(s[i])
  }

  function DigitChar(d: int): (ch: char)
    requires 0 <= d < 10
    ensures IsDigit(ch)
  {
    (48 + d) as char
  }

  function DigitValue(ch: char): int
    requires IsDigit(ch)
  {
    ch as int - 48
  }

  /** Decimal digits of n, most significant first, without leading zeros. */
  function NatToDigits(n: nat): (s: string)
    ensures |s| >= 1 && AllDigits(s)
    decreases n
  {
    if n < 10 then [DigitChar(n)] else NatToDigits(n / 10) + [DigitChar(n % 10)]
  }

  /** The value of a string of decimal digits. */
  function DigitsValue(s: string): nat
    requires AllDigits(s)
  {
    if s == [] then 0 else DigitsValue(s[..|s| - 1]) * 10 + DigitValue(s[|s| - 1])
  }

  lemma {:induction false} DigitsRoundTrip(n: nat)
    ensures DigitsValue(NatToDigits(n)) == n
  {
    if n >= 10 {
      DigitsRoundTrip(n / 10);
      var s := NatToDigits(n);
      assert s[..|s| - 1] == NatToDigits(n / 10);
    }
  }

  lemma TwoDigitsValue(a: int, b: int)
    requires 0 <= a < 10 && 0 <= b < 10
    ensures DigitsValue([DigitChar(a), DigitChar(b)]) == a * 10 + b
  {
    var s := [DigitChar(a), DigitChar(b)];
    assert DigitValue(DigitChar(a)) == a && DigitValue(DigitChar(b)) == b;
    assert s[..1] == [DigitChar(a)];
    assert [DigitChar(a)][..0] == [];
    assert DigitsValue([DigitChar(a)]) == a;
  }

  /** An amount of cents written as a decimal with two fraction digits,
      with a leading minus sign for a negative amount. */
  function FormatCents(c: int): string {
    var m := if c < 0 then -c else c;
    (if c < 0 then "-" else "") + NatToDigits(m / 100) + "." + [DigitChar(m % 100 / 10), DigitChar(m % 10)]
  }

  function GetDailyRateDisplay(c: Car): (s: string)
    ensures |s| >= 5 && s[0] == '$' && s[|s| - 3] == '.'
    ensures IsDigit(s[|s| - 2]) && IsDigit(s[|s| - 1])
  {
    "$" + FormatCents(c.dailyRate)
  }

  /** Reads back an amount written by FormatCents. */
  function ParseCents(s: string): Option<int> {
    if |s| < 4 || s[|s| - 3] != '.' then None
    else
      var neg := s[0] == '-';
      var whole := s[(if neg then 1 else 0)..|s| - 3];
      var frac := s[|s| - 2..];
      if whole == [] || !AllDigits(whole) || !AllDigits(frac) then None
      else
        var m := DigitsValue(whole) * 100 + DigitsValue(frac);
        Some(if neg then -m else m)
  }

  function ParseRateDisplay(s: string): Option<int> {
    if |s| >= 1 && s[0] == '$' then ParseCents(s[1..]) else None
  }

  lemma CentsSplit(m: nat)
    ensures (m / 100) * 100 + (m % 100 / 10) * 10 + m % 10 == m
  {
  }

  lemma FormatCentsRoundTrip(r: int)
    ensures ParseCents(FormatCents(r)) == Some(r)
  {
    var m := if r < 0 then -r else r;
    var sign := if r < 0 then "-" else "";
    var w := NatToDigits(m / 100);
    var frac := [DigitChar(m % 100 / 10), DigitChar(m % 10)];
    var body := sign + w + "." + frac;
    assert FormatCents(r) == body;
    assert |body| == |sign| + |w| + 3;
    assert body[|body| - 3] == '.';
    assert body[0] == '-' <==> r < 0 by {
      if r >= 0 { assert body[0] == w[0]; }
    }
    assert body[|sign|..|body| - 3] == w;
    assert body[|body| - 2..] == frac;
    DigitsRoundTrip(m / 100);
    TwoDigitsValue(m % 100 / 10, m % 10);
    CentsSplit(m);
  }

  /** The display loses nothing: the rate can be read back from it. */
  lemma RateDisplayRoundTrip(c: Car)
    ensures ParseRateDisplay(GetDailyRateDisplay(c)) == Some(c.dailyRate)
  {
    assert GetDailyRateDisplay(c)[1..] == FormatCents(c.dailyRate);
    FormatCentsRoundTrip(c.dailyRate);
  }

  // ---------------------------------------------------------------------
  // Validation and persistence.

  datatype CarError = YearOutOfRange | RateNotPositive

  /** The model-level validation run before every save. */
  function CleanCar(c: Car): (res: Outcome<CarError>)
    ensures res.Pass? <==> 1900 <= c.year <= 2030 && c.dailyRate > 0
    ensures res == Fail(YearOutOfRange) <==> c.year < 1900 || c.year > 2030
  {
    if c.year < 1900 || c.year > 2030 then Fail(YearOutOfRange)
    else if c.dailyRate <= 0 then Fail(RateNotPositive)
    else Pass
  }

  predicate AllCarsValid(cars: map<Id, Car>) {
    forall id :: id in cars ==> CleanCar(cars[id]).Pass?
  }

  /** Saving validates first and writes the row only if validation passed,
      so a table of valid cars stays valid. */
  function SaveCar(cars: map<Id, Car>, id: Id, c: Car): (res: Result<map<Id, Car>, CarError>)
    ensures res.Ok? <==> CleanCar(c).Pass?
    ensures res.Ok? ==> res.value == cars[id := c]
    ensures res.Err? ==> res.error == CleanCar(c).error
    ensures res.Ok? && AllCarsValid(cars) ==> AllCarsValid(res.value)
  {
    match CleanCar(c)
    case Fail(e) => Err(e)
    case Pass => Ok(cars[id := c])
  }

  /** The rejected fixture of cars/tests.py: a zero daily rate. */
  lemma ZeroRateRejected(c: Car)
    requires c.year == 2020 && c.dailyRate == 0
    ensures CleanCar(c) == Fail(RateNotPositive)
  {
  }
}
