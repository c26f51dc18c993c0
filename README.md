# Bike rental: the save hook, the cascade and the queries, in Dafny

This project models the core of a small Django bike-rental application.
Bikes have a unique name, a description, an availability flag and an
hourly rate; rentals reference a user and a bike and carry a start time,
a nullable end time and a total fee. The logic lives in the rental model's
`save` hook: when a rental is saved with an end time and a fee that is
still zero, the fee is computed from the duration and the bike's hourly
rate and the bike is marked available; in every other case the bike is
marked unavailable. Deleting a bike deletes its rentals. The views order
and search the bike list, compute the dashboard's figures, and create a
rental when a user rents a bike.

Money is whole cents and time is whole seconds. The fee of a rental is
`Fee(seconds, rateCents)`: the exact `seconds * rateCents / 3600` rounded
to a cent half-to-even, the rounding of Python's `round` on a `Decimal`
in its default context.

Modules:

- `Wrappers` (`wrappers.dfy`): `Option` for nullable fields and the
  optional search parameter, `Result` for operations that fail.
- `FeeCalculator` (`fee.dfy`): half-even rounding and the fee, with
  uniqueness, monotonicity, sign and tie lemmas.
- `Models` (`models.dfy`): the rows, the database `State` (bikes and
  rentals keyed by id), the state changes `AddBike`, `SaveRental` and
  `DeleteBike` as functions, lemmas about the two branches of the hook
  and about the consistency of availability with open rentals, and
  the `Store` class that holds the maps and updates them in place.
- `Sorting` (`sorting.dfy`): descending order by an integer key and the
  first-n slice.
- `Text` (`text.dfy`): ASCII lower-casing and substring search, the
  `icontains` lookup.
- `Views` (`views.dfy`): the bike list, the dashboard, and renting
  (`Rent` and the `RentBike` method over a `Store`).

The availability flag is not kept consistent with the rentals by the
code, and the model follows the code. The intended lifecycle is that a
bike is available exactly when no open rental references it, that renting
an unavailable bike is refused and that a rental is closed only once. The
code checks none of this: `RentUnavailableDoubleBooks` shows that renting
a rented bike succeeds and leaves it with two open rentals;
`ResaveChargedBreaksConsistency` shows that saving a closed, charged rental
again marks an idle bike unavailable; `ResaveUnchargedBreaksConsistency`
shows that saving again a closed rental whose fee came out zero marks a
rented bike available. Along the paths the lifecycle intends (rent an
available bike, then save the rental once with an end time) consistency is
kept: `OpenKeepsConsistent`, `CloseKeepsConsistent`, `RentKeepsConsistent`,
`RentThenReturn`, `DeleteKeepsConsistent`.

The same `save` hook and field declarations appear in
`week03/myproject/myapp/models.py` (without the description and image
fields) and the same bike-list query in `week05/myproject/myapp/views.py`;
one model covers both copies, and rows below cite either.

## Model

| member | source | states |
|---|---|---|
| `FeeCalculator.RoundHalfEven` | week06/myproject/myapp/models.py:35 | the result is within half a unit of n/d, and on an exact half it is even |
| `FeeCalculator.RoundHalfEvenUnique` | week06/myproject/myapp/models.py:35 | any integer within half a unit of n/d that is even on a tie equals the rounding: the rounding is fully determined |
| `FeeCalculator.RoundHalfEvenMonotone` | week06/myproject/myapp/models.py:35 | rounding preserves the order of numerators |
| `FeeCalculator.Fee` | week06/myproject/myapp/models.py:33-35 | the fee in cents is within half a cent of seconds times rate over 3600, and equals it exactly when that is a whole number of cents |
| `FeeCalculator.FeeTies` | week06/myproject/myapp/models.py:35 | an exact half cent goes to the even neighbour of the two nearest cents |
| `FeeCalculator.FeeExamples` | week06/myproject/myapp/models.py:33-35 | one hour at 50.00 is 50.00, half an hour 25.00, no time 0.00, two hours at 10.00 is 20.00; half a cent rounds to 0 and one and a half cents to 2 |
| `FeeCalculator.FeeZero` | week03/myproject/myapp/models.py:30-32 | a zero duration or a zero rate costs nothing |
| `FeeCalculator.FeeNonNegative` | week06/myproject/myapp/models.py:33-35 | a non-negative duration at a non-negative rate has a non-negative fee |
| `FeeCalculator.FeeMonotoneInDuration` | week06/myproject/myapp/models.py:33-35 | at a non-negative rate the fee never decreases with the duration |
| `Models.NewBike` | week06/myproject/myapp/models.py:8-11 | a new bike is available at the default rate of 5000 cents |
| `Models.NewRental` | week06/myproject/myapp/models.py:20-24 | a new rental has no end time and a zero fee |
| `Models.ClosesOnSave` | week06/myproject/myapp/models.py:32 | the hook's guard: an end time is set and the fee is still zero; an open rental or a charged one never passes it |
| `Models.ClosingFee` | week06/myproject/myapp/models.py:33-35 | the fee charged on closing is non-negative when the end is not before the start and the rate is non-negative |
| `Models.AddBike` | week06/myproject/myapp/models.py:8-10 | creation fails exactly when the name is taken; otherwise it adds one available bike at the given or default rate, changes nothing else and keeps names unique and rentals' bikes present |
| `Models.SaveRental` | week06/myproject/myapp/models.py:29-46 | saving fails exactly when the bike is missing; otherwise only the saved rental (stored as given apart from its fee) and the availability of its bike change, and the database's integrity is kept |
| `Models.DeleteBike` | week06/myproject/myapp/models.py:21 | deleting a bike removes it and exactly the rentals that reference it, leaves every other row as it was and keeps integrity |
| `Models.SaveOpenRental` | week06/myproject/myapp/models.py:41-44 | saving a rental with no end time marks its bike unavailable and stores the rental with its fee unchanged |
| `Models.SaveClosingRental` | week06/myproject/myapp/models.py:32-39 | saving a rental with an end time and a zero fee stores the rounded fee for its duration and its bike's rate, non-negative for a forward duration and a non-negative rate, and marks the bike available |
| `Models.SaveChargedRental` | week06/myproject/myapp/models.py:32-44 | a nonzero fee is never recomputed, and saving such a rental marks its bike unavailable even when it is closed |
| `Models.SaveTwice` | week03/myproject/myapp/models.py:29-41 | saving the stored row again changes nothing if and only if the first save did not charge a nonzero fee; a zero-fee closed rental is recomputed to zero and its bike stays available |
| `Models.Consistent` | week06/myproject/myapp/models.py:29-46 | the lifecycle invariant the hook is meant to keep: every bike has at most one open rental and is available exactly when it has none, and open rentals are uncharged |
| `Models.UnavailableHasOneOpenRental` | week06/myproject/myapp/models.py:41-44 | in a consistent state an unavailable bike has exactly one open rental |
| `Models.OpenKeepsConsistent` | week03/myproject/myapp/models.py:38-41 | saving a new open rental of an available bike keeps every bike available exactly when it has no open rental, with at most one |
| `Models.CloseKeepsConsistent` | week03/myproject/myapp/models.py:29-36 | giving an open rental an end time and saving it keeps that consistency |
| `Models.ResaveChargedBreaksConsistency` | week06/myproject/myapp/models.py:41-44 | saving again a closed, charged rental of an idle bike marks it unavailable with no open rental: consistency is lost |
| `Models.ResaveUnchargedBreaksConsistency` | week06/myproject/myapp/models.py:32-39 | saving again a closed zero-fee rental of a rented bike marks it available while it is rented: consistency is lost |
| `Models.DeleteKeepsConsistent` | week03/myproject/myapp/models.py:18 | the cascade keeps that consistency |
| `Models.Store.CreateBike` | week06/myproject/myapp/models.py:6-10 | the store's new maps are those of `AddBike` under the next bike id, or unchanged with the error |
| `Models.Store.Save` | week06/myproject/myapp/models.py:29-46 | the store's new maps are those of `SaveRental`, the stored row is returned, and the store's invariant is kept |
| `Models.Store.DeleteBikeCascade` | week06/myproject/myapp/models.py:21 | the store's new maps are those of `DeleteBike`; deleting an absent bike changes nothing |
| `Sorting.SortDesc` | week06/myproject/myapp/views.py:23 | the result is ordered by key, highest first, and is a permutation of the input |
| `Sorting.Take` | week06/myproject/myapp/views.py:73 | the `[:5]` slice: min(n, length) elements, each the element at the same position of the input |
| `Sorting.TakeOfSorted` | week06/myproject/myapp/views.py:73 | the first n of a descending sequence stay descending, are drawn from it, and no element left out ranks above a kept one |
| `Text.Contains` | week05/myproject/myapp/views.py:21-23 | true exactly when the needle occurs at some position of the text |
| `Text.IContains` | week05/myproject/myapp/views.py:22 | the `icontains` lookup: true exactly when the lowered query occurs at some position of the lowered text |
| `Views.FilterMatching` | week05/myproject/myapp/views.py:20-23 | each bike appears as often as in the input when it matches the search and not at all otherwise |
| `Views.FilterKeepsOrder` | week06/myproject/myapp/views.py:23-29 | filtering a list ordered by rate leaves it ordered |
| `Views.BikeList` | week06/myproject/myapp/views.py:22-30 | the bike list is drawn from the table, no bike more often than it occurs there; its order and its search are the next rows |
| `Views.BikeListSorted` | week05/myproject/myapp/views.py:17-24 | the bike list is ordered by hourly rate, highest first, with or without a search |
| `Views.BikeListAll` | week05/myproject/myapp/views.py:18-24 | with no search or an empty one, the list is a permutation of all bikes |
| `Views.BikeListSearch` | week06/myproject/myapp/views.py:24-30 | with a search, the list holds exactly the bikes whose name or description contains it ignoring case, each as often as in the table |
| `Views.CountAvailable` | week06/myproject/myapp/views.py:67 | the available count is the number of `true` availability flags in the table, hence at most the number of bikes, zero exactly when none is available, and full exactly when all are |
| `Views.Revenue` | week06/myproject/myapp/views.py:72 | revenue is 0 when no rental has an end time, and non-negative when no fee is negative |
| `Views.RevenueAppend` | week06/myproject/myapp/views.py:72 | revenue is additive over any split of the rental table |
| `Views.RecentRentals` | week06/myproject/myapp/views.py:73 | min(5, n) rentals, latest start first, drawn from the table, and every omitted rental starts no later than every shown one |
| `Views.Dashboard` | week06/myproject/myapp/views.py:64-73 | the bike and rental counts; the available count is `CountAvailable`, unavailable = total − available and non-negative; the revenue is `Revenue` and the recent rentals are `RecentRentals` of the table, so their proved properties hold of the page's figures |
| `Views.Rent` | week06/myproject/myapp/views.py:44-48 | renting fails exactly for an unknown bike; otherwise the only changes are the new open, uncharged rental for the requesting user and that bike under the new id, and that bike's flag set to unavailable; every other row, and the bike's other fields, stay as they were |
| `Views.RentKeepsConsistent` | week06/myproject/myapp/views.py:44-48 | renting an available bike keeps consistency |
| `Views.RentUnavailableDoubleBooks` | week06/myproject/myapp/views.py:44-48 | renting a rented bike succeeds, leaves it with two open rentals and loses consistency |
| `Views.RentThenReturn` | week06/myproject/myapp/models.py:29-46 | renting an available bike and then saving the rental with an end time charges the rounded duration times the rate, makes the bike available again and keeps consistency |
| `Views.RentBike` | week06/myproject/myapp/views.py:44-48 | the store's new maps are those of `Rent` under the next rental id, the new id was unused, and the store's invariant is kept |

## Left out

- The float step of the fee: the source divides the seconds by 3600 as a float before making a `Decimal` of it; the model uses the exact rational, so the two can differ only at a half-cent tie for a duration whose division by 3600 a float does not represent exactly.
- The 28-digit precision of the decimal context and the `max_digits` limits of 6 and 8 digits on rate and fee: rates and fees are unbounded integers, and a database that refuses an oversized value is not modelled.
- Fractions of a second: a duration is a whole number of seconds, while the source's `total_seconds()` keeps microseconds.
- The clock and time zones: start and end times are integer seconds given by the caller (`now` of `RentBike`).
- Case folding beyond ASCII: `icontains` lowers ASCII letters only, as SQLite's `LIKE` does.
- Concurrency and locking: the source has none and the model is sequential.
- Users: a user is an opaque id; whether it exists, and the cascade on user deletion, are not modelled.
- Models.SaveRental: the hook writes the rental's cached copy of its bike back whole; the model changes only the flag of the stored bike, so a stale copy overwriting other edits of that bike is not captured.
- The ordering of bikes with equal rates (and of rentals with equal start times) is left to the database by the source; `SortDesc` keeps the table order among equal keys, and the properties proved hold for any such order.
- The bike name's `max_length` of 200 is not checked, since saving a model does not validate it.
- Templates and rendering, the home and detail pages, the rent page's context data, login enforcement and image storage; the REST views, serializers and admin registrations; URL routing and the empty rental form; the generated migration; the Redis hit counter: none of these has logic of its own.
