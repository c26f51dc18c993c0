/**
 * The request handlers that carry logic: the bike list (ordered by rate,
 * optionally searched), the dashboard's figures, and renting a bike.
 * Query results are sequences of rows in whatever order the database
 * returns them.
 */
module Views {
  import opened Wrappers
  import opened FeeCalculator
  import opened Models
  import opened Sorting
  import opened Text

  /** How many rentals the dashboard lists. */
  const RecentCount: nat := 5

  function HourlyRate(b: Bike): int
  {
    b.hourlyRate
  }

  function StartTime(r: Rental): int
  {
    r.start
  }

  // ---------------------------------------------------------------------
  // The bike list

  /** The search of the bike list: the name or the description contains q, ignoring case. */
  predicate MatchesQuery(b: Bike, q: string)
  {
    IContains(b.name, q) || IContains(b.description, q)
  }

  /** The bikes of s that match q, in the order of s. */
  function FilterMatching(s: seq<Bike>, q: string): (r: seq<Bike>)
    ensures forall b :: multiset(r)[b] == if MatchesQuery(b, q) then multiset(s)[b] else 0
    ensures forall i :: 0 <= i < |r| ==> MatchesQuery(r[i], q)
    decreases |s|
  {
    if s == [] then []
    else
      assert s == [s[0]] + s[1..];
      var rest := FilterMatching(s[1..], q);
      if MatchesQuery(s[0], q) then [s[0]] + rest else rest
  }

  /** Filtering a descending sequence leaves it descending. */
  lemma {:induction false} FilterKeepsOrder(s: seq<Bike>, q: string, key: Bike -> int)
    requires SortedDesc(s, key)
    ensures SortedDesc(FilterMatching(s, q), key)
    decreases |s|
  {
    if s != [] {
      assert s == [s[0]] + s[1..];
      var rest := FilterMatching(s[1..], q);
      FilterKeepsOrder(s[1..], q, key);
      if MatchesQuery(s[0], q) {
        FilterHeadAbove(s, q, key);
        ConsSorted(s[0], rest, key);
      }
    }
  }

  /** The head of a descending s ranks above every bike the filter keeps from the rest of s. */
  lemma {:induction false} FilterHeadAbove(s: seq<Bike>, q: string, key: Bike -> int)
    requires SortedDesc(s, key) && s != []
    ensures forall k :: 0 <= k < |FilterMatching(s[1..], q)| ==> key(s[0]) >= key(FilterMatching(s[1..], q)[k])
  {
    var rest := FilterMatching(s[1..], q);
    forall k | 0 <= k < |rest|
      ensures key(s[0]) >= key(rest[k])
    {
      assert rest[k] in multiset(rest);
      assert rest[k] in multiset(s[1..]);
      var j :| 0 <= j < |s[1..]| && s[1..][j] == rest[k];
      assert s[j + 1] == rest[k];
    }
  }

  /**
   * The bike list for the optional search parameter q: all bikes by hourly
   * rate, highest first; a present, non-empty q keeps only the bikes whose
   * name or description contains it, ignoring case.
   */
  function BikeList(bikes: seq<Bike>, q: Option<string>): (r: seq<Bike>)
    ensures multiset(r) <= multiset(bikes)
  {
    var ordered := SortDesc(bikes, HourlyRate);
    if q.Some? && q.value != "" then FilterMatching(ordered, q.value) else ordered
  }

  /** The bike list is ordered by hourly rate, highest first, with or without a search. */
  lemma {:induction false} BikeListSorted(bikes: seq<Bike>, q: Option<string>)
    ensures SortedDesc(BikeList(bikes, q), HourlyRate)
  {
    if q.Some? && q.value != "" {
      FilterKeepsOrder(SortDesc(bikes, HourlyRate), q.value, HourlyRate);
    }
  }

  /** Without a search, or with an empty one, the list holds every bike exactly as often as the table does. */
  lemma BikeListAll(bikes: seq<Bike>, q: Option<string>)
    requires q.None? || q.value == ""
    ensures multiset(BikeList(bikes, q)) == multiset(bikes)
  {
  }

  /**
   * With a search, each bike appears exactly as often as in the table when
   * it matches and not at all otherwise: no match is dropped, nothing is
   * repeated, and every listed bike matches.
   */
  lemma BikeListSearch(bikes: seq<Bike>, q: string)
    requires q != ""
    ensures forall b :: multiset(BikeList(bikes, Some(q)))[b] == if MatchesQuery(b, q) then multiset(bikes)[b] else 0
    ensures forall i :: 0 <= i < |BikeList(bikes, Some(q))| ==> MatchesQuery(BikeList(bikes, Some(q))[i], q)
  {
  }

  // ---------------------------------------------------------------------
  // The dashboard

  /** The availability flags of the bikes, in table order. */
  function AvailabilityFlags(bikes: seq<Bike>): (flags: seq<bool>)
    ensures |flags| == |bikes|
    ensures forall i :: 0 <= i < |bikes| ==> flags[i] == bikes[i].isAvailable
  {
    seq(|bikes|, i requires 0 <= i < |bikes| => bikes[i].isAvailable)
  }

  /** The number of available bikes. */
  function CountAvailable(bikes: seq<Bike>): (n: nat)
    ensures n == multiset(AvailabilityFlags(bikes))[true]
    ensures n <= |bikes|
    ensures n == 0 <==> forall i :: 0 <= i < |bikes| ==> !bikes[i].isAvailable
    ensures n == |bikes| <==> forall i :: 0 <= i < |bikes| ==> bikes[i].isAvailable
    decreases |bikes|
  {
    if bikes == [] then 0
    else
      var rest := CountAvailable(bikes[1..]);
      assert forall i :: 1 <= i < |bikes| ==> bikes[i] == bikes[1..][i - 1];
      assert AvailabilityFlags(bikes) == [bikes[0].isAvailable] + AvailabilityFlags(bikes[1..]);
      (if bikes[0].isAvailable then 1 else 0) + rest
  }

  /** The sum of the fees of the rentals that have an end time (0 for none). */
  function Revenue(rentals: seq<Rental>): (total: int)
    ensures (forall i :: 0 <= i < |rentals| ==> IsOpen(rentals[i])) ==> total == 0
    ensures (forall i :: 0 <= i < |rentals| ==> rentals[i].totalFee >= 0) ==> total >= 0
    decreases |rentals|
  {
    if rentals == [] then 0
    else
      var rest := Revenue(rentals[1..]);
      assert forall i :: 1 <= i < |rentals| ==> rentals[i] == rentals[1..][i - 1];
      (if IsOpen(rentals[0]) then 0 else rentals[0].totalFee) + rest
  }

  /** Revenue adds up over any split of the rental table; open rentals contribute nothing. */
  lemma {:induction false} RevenueAppend(a: seq<Rental>, b: seq<Rental>)
    ensures Revenue(a + b) == Revenue(a) + Revenue(b)
    decreases |a|
  {
    if a == [] {
      assert a + b == b;
    } else {
      assert (a + b)[0] == a[0];
      assert (a + b)[1..] == a[1..] + b;
      RevenueAppend(a[1..], b);
    }
  }

  /** The five most recently started rentals, latest first (fewer when there are fewer). */
  function RecentRentals(rentals: seq<Rental>): (recent: seq<Rental>)
    ensures |recent| == if |rentals| < RecentCount then |rentals| else RecentCount
    ensures SortedDesc(recent, StartTime)
    ensures multiset(recent) <= multiset(rentals)
    ensures forall x, y :: x in multiset(rentals) - multiset(recent) && y in recent ==> x.start <= y.start
  {
    var ordered := SortDesc(rentals, StartTime);
    TakeOfSorted(ordered, RecentCount, StartTime);
    Take(ordered, RecentCount)
  }

  datatype Stats = Stats(
    totalBikes: nat,
    availableBikes: nat,
    unavailableBikes: int,
    totalRentals: nat,
    totalRevenue: int,
    recentRentals: seq<Rental>)

  /** The figures of the dashboard page. */
  function Dashboard(bikes: seq<Bike>, rentals: seq<Rental>): (d: Stats)
    ensures d.totalBikes == |bikes| && d.totalRentals == |rentals|
    ensures d.availableBikes <= d.totalBikes
    ensures 0 <= d.unavailableBikes && d.availableBikes + d.unavailableBikes == d.totalBikes
    ensures |d.recentRentals| == if |rentals| < RecentCount then |rentals| else RecentCount
    ensures d.availableBikes == CountAvailable(bikes)
    ensures d.totalRevenue == Revenue(rentals)
    ensures d.recentRentals == RecentRentals(rentals)
  {
    var available := CountAvailable(bikes);
    Stats(|bikes|, available, |bikes| - available, |rentals|, Revenue(rentals), RecentRentals(rentals))
  }

  // ---------------------------------------------------------------------
  // Renting a bike

  /**
   * Renting bike pk for user at time now under the new rental id `id`:
   * the rental is created open and uncharged for that user and bike, and
   * saving it marks the bike unavailable. The bike's availability is not
   * checked first. An unknown bike is refused.
   */
  function Rent(s: State, id: RentalId, user: UserId, pk: BikeId, now: int): (res: Result<State, Error>)
    ensures res.Failure? <==> pk !in s.bikes
    ensures res.Failure? ==> res.error == BikeNotFound
    ensures res.Success? ==> id in res.value.rentals && res.value.rentals[id] == NewRental(user, pk, now)
    ensures res.Success? ==> pk in res.value.bikes && !res.value.bikes[pk].isAvailable
    ensures res.Success? ==> res.value.rentals == s.rentals[id := NewRental(user, pk, now)]
    ensures res.Success? ==> res.value.bikes == s.bikes[pk := s.bikes[pk].(isAvailable := false)]
    ensures res.Success? && WellFormed(s) ==> WellFormed(res.value)
  {
    if pk !in s.bikes then Failure(BikeNotFound)
    else SaveRental(s, id, NewRental(user, pk, now))
  }

  /** Renting an available bike keeps the state consistent. */
  lemma {:induction false} RentKeepsConsistent(s: State, id: RentalId, user: UserId, pk: BikeId, now: int)
    requires WellFormed(s) && Consistent(s)
    requires id !in s.rentals && pk in s.bikes && s.bikes[pk].isAvailable
    ensures Consistent(Rent(s, id, user, pk, now).value)
  {
    OpenKeepsConsistent(s, id, NewRental(user, pk, now));
  }

  /**
   * Renting a bike that is already out succeeds all the same: the bike then
   * has two open rentals and the state is no longer consistent.
   */
  lemma {:induction false} RentUnavailableDoubleBooks(s: State, id: RentalId, user: UserId, pk: BikeId, now: int)
    requires WellFormed(s) && Consistent(s)
    requires id !in s.rentals && pk in s.bikes && !s.bikes[pk].isAvailable
    ensures Rent(s, id, user, pk, now).Success?
    ensures |OpenRentalsOf(Rent(s, id, user, pk, now).value, pk)| == 2
    ensures !Consistent(Rent(s, id, user, pk, now).value)
  {
    var t := Rent(s, id, user, pk, now).value;
    var before := OpenRentalsOf(s, pk);
    UnavailableHasOneOpenRental(s, pk);
    var x :| before == {x};
    assert OpenRentalsOf(t, pk) == {x, id} by {
      assert forall y :: y in t.rentals && y != id ==> t.rentals[y] == s.rentals[y];
    }
  }

  /**
   * The whole lifecycle: renting an available bike and later saving the
   * rental with an end time `seconds` after its start charges the rounded
   * duration times the rate, hands the bike back and keeps the state
   * consistent.
   */
  lemma {:induction false} RentThenReturn(s: State, id: RentalId, user: UserId, pk: BikeId, now: int, seconds: int)
    requires WellFormed(s) && Consistent(s)
    requires id !in s.rentals && pk in s.bikes && s.bikes[pk].isAvailable
    ensures var t := Rent(s, id, user, pk, now).value;
      var u := SaveRental(t, id, t.rentals[id].(end := Some(now + seconds))).value;
      && u.rentals[id].totalFee == Fee(seconds, s.bikes[pk].hourlyRate)
      && u.bikes[pk].isAvailable
      && Consistent(u)
  {
    var t := Rent(s, id, user, pk, now).value;
    RentKeepsConsistent(s, id, user, pk, now);
    CloseKeepsConsistent(t, id, now + seconds);
    var r := t.rentals[id].(end := Some(now + seconds));
    SaveClosingRental(t, id, r);
    assert t.bikes[pk].hourlyRate == s.bikes[pk].hourlyRate;
  }

  /**
   * The rent view: looks the bike up by the URL's pk, then creates and
   * saves a rental for the requesting user starting at now, under the next
   * rental id.
   */
  method RentBike(store: Store, user: UserId, pk: BikeId, now: int) returns (res: Result<RentalId, Error>)
    requires store.Valid()
    modifies store
    ensures store.Valid()
    ensures match Rent(old(store.Snapshot()), old(store.nextRentalId), user, pk, now)
      case Success(t) => res == Success(old(store.nextRentalId)) && store.Snapshot() == t
      case Failure(e) => res == Failure(e) && store.Snapshot() == old(store.Snapshot())
    ensures res.Success? ==> res.value !in old(store.rentals)
  {
    if pk !in store.bikes {
      return Failure(BikeNotFound);
    }
    var id := store.nextRentalId;
    var saved := store.Save(id, NewRental(user, pk, now));
    res := Success(id);
  }
}
