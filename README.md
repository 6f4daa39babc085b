# Car-rental reservation engine, modelled in Dafny

This project models the reservation lifecycle of a Django car-rental
service. The modelled parts are:

- the validation, pricing and cancellation-fee rules of a reservation;
- the date-conflict check that keeps two live bookings of one car from
  overlapping;
- the staff and customer endpoints that activate, complete and cancel a
  reservation, create one, or preview its cancellation fee;
- the signal handlers that keep a car's "rented" flag in step with its
  reservations;
- the periodic sweeps that activate, complete and auto-cancel reservations
  by date;
- the vehicle's availability and status strings and its validation;
- the customer profile, its eligibility test, and the registration
  endpoint.

The database is replaced by an in-memory `Store` class (`storage.dfy`). It
holds one map per table (accounts, profiles, cars, reservations) and the
two auto-increment counters. Its `Valid()` invariant states what every
successful save keeps true:

- foreign keys point at existing rows;
- every stored car passes its own validation;
- every stored reservation is well formed: start before end, any rate
  positive, and the total filled in and positive;
- no two live (pending, confirmed or active) reservations of one car share
  a day.

Every state-changing operation is proved to preserve `Valid()`.

Representation choices:

- Dates are day numbers and instants are whole seconds.
- Money is in integer cents. The cancellation fee is an exact `real`,
  because `total * 0.50` may hold half a cent.
- `today`, `now` and the time zone's offset from UTC are parameters.
- Unicode NFKC normalization, which `create_user` applies to the
  username, is a parameter `nfkc` of the registration; the email
  normalization of `create_user` is modelled in full.
- Django's exceptions become `Result`/`Outcome` values. A `ValidationError`
  raised by `save()` inside a view is not caught by the REST framework, so
  the view models report it as `Raised` (a server error), not as a 400.

Modules, one per source file:

| module | file | source |
|---|---|---|
| `Common` | `common.dfy` | keys, days, money, `Option`/`Result`/`Outcome` |
| `Cars` | `cars_models.dfy` | cars/models.py |
| `Users` | `users_models.dfy` | users/models.py |
| `Reservations` | `reservations_models.dfy` | the value-level part of reservations/models.py |
| `Storage` | `storage.dfy` | the database tables |
| `Signals` | `reservations_signals.dfy` | reservations/signals.py |
| `ReservationRecords` | `reservations_records.dfy` | the database-bound part of reservations/models.py |
| `ReservationViews` | `reservations_views.dfy` | reservations/views.py |
| `Tasks` | `reservations_tasks.dfy` | reservations/tasks.py |
| `Registration` | `users_views.dfy` | users/views.py |

## Model

| member | source | states |
|---|---|---|
| Cars.CanBeRented | cars/models.py:52-56 | a car can be rented exactly when it is in the fleet and its status label is "Available", i.e. in fleet, not rented, not damaged, not in maintenance |
| Cars.GetStatus | cars/models.py:58-66 | each of the four labels holds exactly under its condition, with maintenance over damage over rented |
| Cars.StatusIgnoresFleet | cars/models.py:58-66 | the in-fleet flag never changes the status label |
| Cars.GetRentalStatus | cars/models.py:68-79 | "Available for Rental" exactly when the car can be rented |
| Cars.RentalStatusFollowsStatus | cars/models.py:68-79 | an unrentable car's label is its status label plus " - Not Available", or "Not Available" when the car is only out of the fleet |
| Cars.OutOfFleetIsNotAvailable | cars/models.py:76-77 | a car that is only out of the fleet is "Not Available" |
| Cars.GetDailyRateDisplay | cars/models.py:81-82 | the display is "$", digits, "." and exactly two digits |
| Cars.RateDisplayRoundTrip | cars/models.py:81-82 | the rate can be read back from its display, for every amount including negative ones |
| Cars.FormatCentsRoundTrip | cars/models.py:81-82 | parsing the two-decimal rendering of an amount gives the amount back |
| Cars.DigitsRoundTrip | cars/models.py:81-82 | the decimal digits of a number read back as the number |
| Cars.CleanCar | cars/models.py:85-93 | validation passes exactly for a year in 1900..2030 and a positive rate; the year is checked first |
| Cars.ZeroRateRejected | cars/tests.py:51-64 | a 2020 car with rate 0.00 is rejected for its rate |
| Cars.SaveCar | cars/models.py:95-100 | a save writes the row exactly when validation passes, reports the validation error otherwise, and keeps a table of valid cars valid |
| Users.CanMakeReservations | users/models.py:34-35 | a profile may book exactly when it is verified and active |
| Users.GetFullName | users/models.py:37-38 | the first name, one blank, then the last name |
| Users.FullNameSplitsBack | users/models.py:37-38 | splitting the full name at the blank gives back the two names when neither has a blank |
| Users.FullNameExample | users/tests.py:37-38 | "Test" and "User" give "Test User" |
| Users.GetFullAddress | users/models.py:40-41 | the address comes first, the zip code last, and the length is that of the parts plus three ", " separators |
| Users.FullAddressSplitsBack | users/models.py:40-41 | splitting at the commas gives back the four parts when none contains a comma |
| Users.FullAddressExample | users/tests.py:40-44 | the fixture's parts give "Main St 1, Istanbul, TR, 34000" |
| Users.SplitAtFirstSep | users/models.py:37-41 | splitting at a separator after a separator-free head gives the head, then the split of the rest |
| Reservations.GetDurationDays | reservations/models.py:108-109 | the duration is positive exactly when the start comes before the end |
| Reservations.GetTotalAmount | reservations/models.py:108-112 | rate times (end - start) days when a rate is set; none (the type error) when it is not |
| Reservations.TotalAmountExample | reservations/tests.py:59-61 | 100.00 a day for 3 days is 300.00 |
| Reservations.CanBeCancelled | reservations/models.py:117-118 | cancellable exactly for a live status other than active; never for completed or cancelled |
| Reservations.TotalOrComputed | reservations/models.py:202-203 | the stored total when it is set and non-zero, otherwise the computed one |
| Reservations.TotalNeverRecomputed | reservations/models.py:202-203 | filling the total twice changes nothing, and a set total ignores later rate changes |
| Reservations.StartInstant | reservations/models.py:217-221 | the start of a day is local midnight: the instant plus the offset is a whole number of days, and that number is the day |
| Reservations.GetCancellationFee | reservations/models.py:206-235 | no fee unless pending or confirmed; for those, an error exactly when the total has to come from an unset rate |
| Reservations.FeeBands | reservations/models.py:216-235 | in whole seconds: at least 172800 s before the start costs 0, at least 86400 s costs half the total, otherwise the whole total |
| Reservations.FeeWithinTotal | reservations/models.py:230-235 | the fee lies between 0 and the total |
| Reservations.FeeGrowsAsStartNears | reservations/models.py:230-235 | cancelling later never costs less |
| Reservations.FeeExamples | reservations/tests.py:72-82 | a pending reservation of 200.00 starting in 3, 2 or 1 days (UTC, not at midnight) costs 0.00, 100.00 or 200.00 |
| Reservations.AtMidnightTwoDaysAheadIsFree | reservations/tests.py:76-78 | at exactly midnight the two-days-ahead fixture costs 0.00, not 100.00 |
| Reservations.CleanGuards | reservations/models.py:155-195 | the guards fail fast: the error reported is the first guard in source order that rejects, and passing means no guard rejects |
| Reservations.GuardsPassIffNoneRejects | reservations/models.py:155-195 | the guards pass exactly when none of them rejects |
| Reservations.PassedGuardsHavePositiveDuration | reservations/models.py:108-109 | a reservation that passed the guards lasts at least one day and costs at least one day's rate |
| Reservations.ExistingRowGuardsCheckOnlyOwner | reservations/models.py:163-195 | for a row that has a key and valid dates and rate, the guards pass exactly when the owner may still book, and otherwise report an owner problem |
| Reservations.IneligibleProfileRejected | reservations/models.py:180-184 | a profile that is not verified and active makes clean() reject |
| Reservations.GuardsIgnoreRentedFlag | reservations/models.py:186-195 | the car's rented flag never affects the guards |
| Reservations.ExistingIgnoresDatesAndCar | reservations/models.py:163-167 | for a row that has a key, neither today's date nor the car's flags affect the guards |
| Reservations.FilledRowWellFormed | reservations/models.py:200-204 | a row that passed the guards, arrived with no total or a non-negative one, and whose total could be filled is well formed, its total positive |
| Reservations.OverlapsIffSharedDay | reservations/models.py:147-148 | the inclusive overlap test holds exactly when the two date ranges share a day |
| Reservations.BlocksSymmetric | reservations/models.py:147-148 | between two live reservations, blocking is symmetric |
| Reservations.TerminalNeverBlocks | reservations/models.py:137-140 | completed and cancelled reservations never cause a conflict |
| Reservations.Persisted | reservations/tasks.py:18 | a save with a column list writes those columns and keeps every other column as stored |
| ReservationRecords.ConflictCandidates | reservations/models.py:137-140 | the queried rows are exactly the live rows of the same car other than the row itself |
| Common.Newest | reservations/models.py:96-102 | the largest key of a non-empty set: in the set and no smaller than any member |
| Common.PickNewest | reservations/models.py:96-102 | yields the newest row of those left, as the newest-first ordering does |
| ReservationRecords.CheckDateConflict | reservations/models.py:131-151 | the scan, newest row first, finds a blocker exactly when some other live row of the same car overlaps; the blocker it reports overlaps and is the newest row that does |
| ReservationRecords.Clean | reservations/models.py:155-198 | clean() reports the first failing guard, else the newest row that blocks, else success |
| ReservationRecords.CleanPassesIffSucceeds | reservations/models.py:155-198 | clean() passes exactly when every guard passes and no row blocks |
| ReservationRecords.OwnRowNeverBlocks | reservations/models.py:140 | excluding the row's own key is the same as scanning the table without that row |
| ReservationRecords.BackToBackConflicts | reservations/models.py:147-148 | a stay ending on the day another starts conflicts with it |
| ReservationRecords.ConflictDependsOnSchedule | reservations/models.py:137-148 | only the car and the dates decide a conflict |
| ReservationRecords.ResavedLiveRowNeverConflicts | reservations/models.py:137-148 | in a table without overlaps, a live row saved again with its own car and dates never conflicts |
| ReservationRecords.WriteKeepsNoLiveOverlap | reservations/models.py:198-204 | writing a row that nothing blocks keeps the table free of overlaps |
| ReservationRecords.ResaveSucceedsIffOwnerMayReserve | reservations/models.py:155-204 | saving a stored live row again with its own owner, car, dates, rate and total keeps the total; clean() then passes exactly when the owner may still book and otherwise fails for the owner |
| Storage.Store.PutReservation | reservations/models.py:200-204 | the row is written over its own key or inserted under the next one, which advances the counter; nothing else changes and the store stays valid |
| ReservationRecords.Save | reservations/models.py:200-204 | succeeds exactly when clean() passes and a total can be filled; then writes the filled row (or, with a column list, those columns) under its key or a fresh one and runs the post-save handler; on failure writes nothing |
| ReservationRecords.Delete | reservations/signals.py:42-54 | deletion removes the row after the pre-delete handler has cleared its car's flag |
| Signals.CarAfterSave | reservations/signals.py:29-39 | active sets the car rented, completed or cancelled clears it, pending or confirmed leaves the car as it was, and no other field changes |
| Signals.CarAfterDelete | reservations/signals.py:52-54 | the car is left not rented, whatever the reservation's status, and no other field changes |
| Signals.SaveHandlerIdempotent | reservations/signals.py:30-38 | running the post-save handler twice equals running it once |
| Signals.DeleteHandlerIdempotent | reservations/signals.py:52-54 | running the pre-delete handler twice equals running it once |
| Signals.WriteRentedFlag | reservations/signals.py:32 | writing only the flag back passes the car's validation and changes only that car |
| Signals.UpdateCarStatusOnSave | reservations/signals.py:11-39 | after the handler, the saved reservation's car is as CarAfterSave says, and nothing else changes |
| Signals.UpdateCarStatusOnDelete | reservations/signals.py:42-54 | after the handler, the reservation's car is as CarAfterDelete says, and nothing else changes |
| ReservationViews.Queryset | reservations/views.py:32-46 | staff see every row; anyone else exactly their own rows |
| ReservationViews.QuerysetSeparatesOwners | reservations/views.py:39-46 | a customer sees all their own rows and none of another customer's |
| ReservationViews.GetObject | reservations/views.py:32-46 | the lookup finds a row exactly when it exists and the actor may see it, and reports it missing otherwise |
| ReservationViews.ActivateStep | reservations/views.py:58-79 | a non-staff actor gets 403 first; staff on anything but a confirmed row get 400; otherwise the row becomes active |
| ReservationViews.CompleteStep | reservations/views.py:87-108 | a non-staff actor gets 403 first; staff on anything but an active row get 400; otherwise the row becomes completed |
| ReservationViews.CancelStep | reservations/views.py:116-144 | staff or owner first (403), then pending or confirmed (400); it raises exactly when the caller may cancel, the row is cancellable and no total can be found or computed; success records the fee of the moment, the time, the canceller, the reason ("" by default) and the cancelled status |
| ReservationViews.Step | reservations/views.py:58-144 | no action changes the owner, car, dates, rate or total |
| ReservationViews.Decide | reservations/views.py:64 | a row outside the actor's queryset is 404 before any other check |
| ReservationViews.StepsFollowLifecycle | reservations/views.py:72-143 | every successful action is confirmed to active, active to completed, or pending or confirmed to cancelled |
| ReservationViews.TerminalRowsAreFinal | reservations/views.py:72-134 | no action succeeds on a completed or cancelled row |
| ReservationViews.CompletedCannotBeReactivated | reservations/views.py:72-76 | staff activating a completed row get 400 |
| ReservationViews.OthersRowsAreNotFound | reservations/views.py:39-46 | a customer asking for someone else's row gets 404, whatever the action |
| ReservationViews.CancelNeverForbidden | reservations/views.py:122-128 | cancel's 403 can never be returned, because the lookup already filters by owner |
| ReservationViews.OwnerCannotActivate | reservations/views.py:66-99 | a customer activating or completing their own row gets 403 |
| ReservationViews.CancelledFeeWithinTotal | reservations/views.py:137-138 | on a stored row, a recorded fee lies between 0 and the row's total |
| Reservations.StoredTotalPositive | reservations/models.py:200-204 | a stored row's total is positive and is the one the fee is computed from |
| ReservationViews.StoredRowCancelNeverRaises | reservations/views.py:137 | on a stored row the fee can always be computed |
| ReservationViews.DecidedActionSavesIffOwnerMayReserve | reservations/views.py:78-144 | once an action has changed a stored row, its save keeps the total and succeeds exactly when the owner may still book |
| ReservationViews.FeePreview | reservations/views.py:181-190 | a refusal is always a 400 |
| ReservationViews.FeePreviewMatchesFee | reservations/views.py:181-190 | 400 exactly when there is no fee, which is exactly when the row cannot be cancelled; otherwise the fee itself |
| ReservationViews.PreviewIsRecordedFee | reservations/views.py:137-190 | the previewed fee is the fee a cancellation at the same moment records |
| ReservationViews.CancellationFeeView | reservations/views.py:174-191 | 404 for a row the actor cannot see, otherwise the preview of that row |
| ReservationViews.CreateInstance | reservations/views.py:48-56 | a customer's reservation is theirs and confirmed; staff's is the submitted owner (required) with the submitted status, pending by default; the cancellation reason is the submitted one, and the total, fee, cancellation date and canceller start unset |
| ReservationViews.NonStaffOwnerAndStatusIgnored | reservations/views.py:53-56 | the owner and status a customer submits make no difference |
| ReservationViews.SaveAction | reservations/views.py:78-85 | the closing save succeeds exactly when clean() passes and the total can be filled, and a failure is a server error |
| ReservationViews.PerformAction | reservations/views.py:58-150 | for an actor whose staff flag is that of their stored account: a refused decision is returned unchanged; otherwise the response is the save's, and the row and its car change only on success |
| ReservationViews.Create | reservations/views.py:48-56 | with an existing owner and car, creation succeeds exactly when clean() passes and the total can be filled; a created row is the built instance with its total filled, under the next key, and a customer's row is theirs and confirmed; a server error carries clean()'s first failure or the unset rate; nothing is written on failure |
| Tasks.Selects | reservations/tasks.py:11-57 | a sweep selects only live rows, and never one already in its target status |
| Tasks.Target | reservations/tasks.py:16-63 | no sweep moves a row to pending or confirmed; only auto-cancellation cancels and only activation activates |
| Tasks.Touched | reservations/tasks.py:59-63 | a swept row gets the sweep's status, and auto-cancellation also stamps the time and the fixed reason; nothing else changes, fee included |
| Tasks.PersistedIsTouched | reservations/tasks.py:59-63 | saving with the sweep's column list writes exactly the touched row |
| Tasks.Selected | reservations/tasks.py:44-57 | exactly the rows matching the sweep's status and date filter |
| Tasks.Swept | reservations/tasks.py:16-18 | swept rows are touched, all other rows are unchanged |
| Tasks.CarsAfter | reservations/signals.py:29-39 | the cars of swept rows follow the target status, all other cars are unchanged |
| Tasks.SweepStep | reservations/tasks.py:16-18 | sweeping one more row advances the table and the cars by that row alone |
| Tasks.SweepRow | reservations/tasks.py:18 | saving a selected row succeeds exactly when its owner may still book, and otherwise fails for the owner and writes nothing |
| Tasks.RunSweep | reservations/tasks.py:16-20 | the sweep visits the selected rows newest first and runs through exactly when every selected row's owner may still book, then every selected row is swept and the count is the number selected; otherwise it stops at the newest unsaved row, whose owner may not book, with the owner's problem, and exactly the selected rows newer than it are saved |
| Tasks.ActivateTodaysReservations | reservations/tasks.py:6-20 | succeeds exactly when every owner of a confirmed row starting today may book; then exactly those rows become active, their cars rented, and the count is their number; on failure the rows saved are the newest ones, down to the newest row whose owner may not book; accounts, profiles and counters never change |
| Tasks.CompleteEndedReservations | reservations/tasks.py:23-36 | succeeds exactly when every owner of an active row ending today may book; then exactly those rows become completed, their cars not rented, and the count is their number; on failure the rows saved are the newest ones, down to the newest row whose owner may not book; accounts, profiles and counters never change |
| Tasks.SweptNothing | reservations/tasks.py:39-57 | a pass that sweeps no row changes neither the table nor the cars |
| Tasks.SecondSelectionUntouched | reservations/tasks.py:44-57 | the rows the cancellation pass selects are untouched by the completion pass |
| Tasks.CleanupExpiredReservations | reservations/tasks.py:39-68 | expired active rows are completed, then expired pending and confirmed ones cancelled, each pass newest first and the second running only after the first ran through; the cars follow both passes; success exactly when every owner of both selections may book, with the counts the sizes of the two selections; an error comes from the newest row the failing pass did not save; accounts, profiles and counters never change |
| Tasks.CancelSelectionUnaffected | reservations/tasks.py:44-57 | completing the expired active rows does not change which rows the cancellation pass selects |
| Tasks.ResweepSelectsRest | reservations/tasks.py:11-18 | sweeping again selects exactly the rows not yet swept |
| Tasks.SecondRunSelectsNothing | reservations/tasks.py:11-20 | a second run on the same day selects nothing |
| Tasks.CleanupSecondRunSelectsNothing | reservations/tasks.py:44-68 | after a full cleanup neither of its passes selects anything |
| Tasks.UnselectedUntouched | reservations/tasks.py:11-14 | rows a sweep does not select are unchanged |
| Tasks.PendingNotActivated | reservations/tasks.py:11-14 | a pending row starting today is not activated |
| Tasks.SweptCarsFlags | reservations/signals.py:29-39 | after a sweep, the car of a swept row is rented exactly when the sweep activates |
| Registration.MissingAmong | users/views.py:22 | exactly the absent or empty fields among those listed, in the listed order |
| Registration.Missing | users/views.py:15-22 | exactly the absent or empty required fields, in the order they are required |
| Registration.NothingMissing | users/views.py:22-23 | nothing is missing exactly when every field is present and non-empty |
| Registration.MissingAmongAppend | users/views.py:22 | the report for two lists of fields is the report for the first followed by the report for the second |
| Registration.RegistrationCheck | users/views.py:22-55 | missing fields are reported, with the missing list, exactly when a field is missing; each duplicate error is reported exactly when its own field is taken and every earlier check passed (username, then email, phone, license number); success exactly when nothing is missing or taken |
| Registration.SkipSpaces | users/views.py:58-64 | the position found is the first one that is not whitespace, and everything skipped is whitespace |
| Registration.TrimEnd | users/views.py:58-64 | the end found follows a character that is not whitespace, and everything dropped after it is whitespace |
| Registration.Strip | users/views.py:58-64 | the result is a slice of the input with only whitespace before and after it, and it has no whitespace at either end; it holds no '@' when the input holds none |
| Registration.StripKeepsStripped | users/views.py:58-64 | stripping a string without surrounding whitespace changes nothing |
| Registration.LastAt | users/views.py:58-64 | the position found holds an '@' and no '@' follows it; when none is found the string has no '@' |
| Registration.LastAtIsTheLast | users/views.py:58-64 | the last '@' is the one the split uses |
| Registration.LowerAscii | users/views.py:58-64 | the length is kept, each letter A-Z becomes its lowercase letter in place, and every other character is kept in place |
| Registration.LowerAsciiIdempotent | users/views.py:58-64 | lowering twice equals lowering once |
| Registration.LowerAsciiKeepsMarks | users/views.py:58-64 | lowering adds no '@' and keeps whether the last character is whitespace |
| Registration.NormalizeEmail | users/views.py:60 | an address without '@' is stored as it was sent |
| Registration.NormalizeAtLastAt | users/views.py:60 | a stripped address is split at its last '@' and its domain lowercased |
| Registration.NormalizeEmailLowersDomain | users/views.py:60 | the local part is kept and the domain after the last '@' lowercased |
| Registration.SplitAddressStripped | users/views.py:60 | a normalized address with an '@' has no surrounding whitespace |
| Registration.SplitAddressNormal | users/views.py:60 | a normalized address with an '@' normalizes to itself |
| Registration.NormalizeEmailIdempotent | users/views.py:60 | normalizing a stored address again changes nothing |
| Registration.NewAccount | users/views.py:58-64 | the new account has the submitted names, is active and is not staff; its username is the NFKC form of the submitted one and its email the normalized address, which normalizing again leaves unchanged |
| Registration.NewProfile | users/views.py:66-77 | the new profile has the submitted phone and license number, is unverified and active |
| Registration.FreshRegistrantCannotReserve | users/views.py:75-76 | a newly created profile cannot book until verified |
| Registration.RegistrationOutcome | users/views.py:22-82 | a 400 exactly when a raw check fails, with that check's error; a server error exactly when the checks pass but the normalized username is taken; otherwise created |
| Registration.ClashOnlyWhenNormalizationChanges | users/views.py:33-64 | the server error needs a username that normalization changes |
| Registration.AddAccountKeepsUnique | users/views.py:58-64 | adding an account whose username nobody holds keeps usernames unique |
| Registration.AddProfileKeepsUnique | users/views.py:66-77 | adding a profile whose phone and license number nobody holds keeps both unique |
| Registration.RegistrationKeepsCredentialsUnique | users/views.py:33-77 | a registration that creates its rows keeps usernames, phones and license numbers unique |
| Registration.CreatedMeansFree | users/views.py:33-55 | when a registration is created, nobody held its normalized username, its phone or its license number |
| Registration.FreeKeepsUnique | users/views.py:57-77 | adding an account and a profile whose username, phone and license number nobody holds keeps all three unique |
| Registration.SameEmailOtherCaseComplete | users/views.py:22-23 | the example registration has every field |
| Registration.DomainLowered | users/views.py:60 | "a@X" is stored as "a@x" |
| Registration.SameEmailOtherCaseValues | users/views.py:22-23 | the example registration sends username "bob", email "a@X", phone "2" and license number "L2" |
| Registration.CredentialsNotHeld | users/views.py:33-55 | the stored account and profile hold neither "bob", "a@X", " a@x", phone "2" nor license number "L2" |
| Registration.SameEmailOtherCaseFree | users/views.py:33-55 | nobody holds the example registration's username, email as sent, phone or license number |
| Registration.SameEmailOtherCasePassesChecks | users/views.py:33-55 | the example registration passes all four raw duplicate checks against an account holding "a@x" |
| Registration.DomainCaseDefeatsEmailCheck | users/views.py:39-64 | that registration is created and its account holds the same email as the existing one: emails are not kept unique |
| Registration.PaddingStripped | users/views.py:58-64 | " a@x" is stored as "a@x" |
| Registration.PaddedEmailComplete | users/views.py:22-23 | the registration with email " a@x" has every field |
| Registration.PaddedEmailPassesChecks | users/views.py:33-55 | that registration passes all four raw duplicate checks against an account holding "a@x" |
| Registration.PaddingDefeatsEmailCheck | users/views.py:39-64 | that registration is created and its account holds the same email as the existing one |
| Storage.Store.AddAccount | users/views.py:57-77 | the account and its profile are inserted under the next account key, which advances; nothing else changes and the store stays valid |
| Registration.Register | users/views.py:11-82 | the response is the outcome above; nothing is written unless it is created, and then exactly one normalized account and its unverified profile are created under the next key; usernames, phones and license numbers stay unique |

## Left out

- The ORM, query evaluation, migrations and transactions. The tables are
  in-memory maps. `transaction.atomic` in users/views.py needs no model,
  because the model's registration writes both rows in one step after
  the only save that can fail.
- Concurrency. The sweeps and the endpoints run one at a time, so the
  check-then-act race between two concurrent bookings is not modelled.
- The REST framework's plumbing: serializers, permission classes, routing,
  the "me" and admin-only endpoints, and the admin configuration. The
  admin's editable status column lets staff bypass the transition checks;
  that is not modelled. Two serializer facts are kept. The total, the fee,
  the cancellation date and the canceller are read-only, while the
  cancellation reason is writable at creation. A customer cannot set the
  owner or the status (see `CreateInstance`).
- The update and destroy endpoints of the viewset, other than the
  `Delete` row operation they end in.
- `cancellation_policy` (reservations/views.py:152-172), because it
  returns a constant text.
- Celery scheduling and app start-up. The sweeps are methods called with
  `today` and `now`.
- The `print` calls of the signal handlers.
- Time zones. The start of a day in the current zone is the day times
  86400 s minus a fixed UTC offset, so daylight-saving changes are not
  modelled. Floating-point hours are replaced by the exact thresholds
  172800 s and 86400 s.
- ReservationViews.CancelStep: one instant serves both the fee and the
  cancellation date. The source reads the clock twice, once for the fee
  (reservations/models.py:216) and once for the date
  (reservations/views.py:139), so its date can be a moment later.
- CleanupExpiredReservations: every row the pass cancels is stamped with
  the same instant `now`. The source reads the clock anew for each row
  (reservations/tasks.py:61).
- Registration.LowerAscii: Python's `str.lower()` also lowercases
  non-ASCII letters of an email's domain; the model lowercases A-Z only.
- Registration.Register: Unicode NFKC normalization is not computed. The
  username's normal form is the parameter `nfkc`, so only its effect on
  the duplicate-username error is modelled.
- Length limits of the account and profile columns, which `create_user`
  and `UserProfile.objects.create` do not check before writing.
- Reservations.GetCancellationFee: the fee is kept exact, so a half cent
  is not rounded the way the two-decimal column would store it.
- The `max_digits=10` bound of the money columns, and column types
  generally: a malformed date of birth at registration is not modelled.
  The date stays the submitted text.
- Password hashing and authentication. The password is required but not
  stored.
- The text of error messages. Errors are constructors instead of strings,
  so the joined "Missing fields: ..." message is not built.
- The `total is None` branch of get_cancellation_fee
  (reservations/models.py:227-228). It cannot be reached: a computed
  total either exists or the computation raised.
- ReservationRecords.Save: an instance that arrives with a negative total
  is not modelled. Clients cannot write the total, so an instance carries
  no total or the stored, positive one.
- ReservationRecords.Save: a column list (`update_fields`) is modelled
  only for an instance that keeps its stored row's car and dates. That is
  the only way the source uses it.
- The serializer's lookup of the owner and car keys is modelled as a 400
  when they do not exist.
- A `null` reason sent to cancel is not modelled. A missing reason
  becomes "".

Behaviour of the code worth noting, all of it modelled:

- A customer's new reservation is created confirmed
  (reservations/views.py:53-56). A reservation staff create without a
  status is pending, the column's default (reservations/models.py:87).
- The daily rate is a writable field of the create request
  (reservations/serializers.py:33-43). Nothing copies the car's rate into
  it, and the total is that rate times the days
  (reservations/models.py:110-112).
- Activation accepts exactly the confirmed rows
  (reservations/views.py:72-76). It checks neither the start date nor the
  car's other active reservations.
- The post-save handler sets the car's flag for an active row and clears
  it for a completed or cancelled one (reservations/signals.py:28-38). The
  pre-delete handler always clears it (reservations/signals.py:52-54).
  Neither looks at the car's other reservations.
- Reservations are ordered newest first (reservations/models.py:102). The
  conflict scan therefore names the newest blocking row, and each sweep
  visits its rows newest first.
- The sweeps are three separate tasks (reservations/tasks.py:8, 24, 40).
  Each stops at the first row whose save raises. That happens exactly
  when the row's owner is inactive, has no profile, or may not book. The
  rows saved before the failing one stay saved.
- The auto-cancellation reason is "Auto-cancelled: end date passed"
  (reservations/tasks.py:62).
- A non-owner asking for someone else's reservation gets 404 from the
  filtered lookup (reservations/views.py:41-46). Cancel's 403 branch
  (reservations/views.py:124-128) is therefore unreachable.
- Registration checks duplicates on the submitted username and email
  (users/views.py:33-43), but `create_user` stores them normalized
  (users/views.py:58-64). An email that differs from a stored one only in
  the case of its domain, or in surrounding whitespace, passes the check
  and is stored a second time (`DomainCaseDefeatsEmailCheck`,
  `PaddingDefeatsEmailCheck`). A username
  whose normal form is taken passes the check and then fails on the
  unique column, a server error.
