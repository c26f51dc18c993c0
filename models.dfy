/**
 * Bikes, rentals and the rental save hook.
 *
 * The database is a `State`: bikes and rentals keyed by their ids. Saving a
 * rental runs the hook of the rental model: when the rental has an end time
 * and still a zero fee, the fee is computed and the bike is marked
 * available; in every other case the bike is marked unavailable. Deleting
 * a bike deletes the rentals that reference it. `Store` holds the state
 * and changes it in place; the functions on `State` say what each change is.
 */
module Models {
  import opened Wrappers
  import opened FeeCalculator

  type BikeId = nat
  type RentalId = nat
  /** The id of an authenticated user; users themselves are not modelled. */
  type UserId = nat

  /** The default hourly rate, 50.00, in cents. */
  const DefaultHourlyRate: int := 5000

  /** A bike row; the hourly rate is in cents. */
  datatype Bike = Bike(name: string, description: string, isAvailable: bool, hourlyRate: int)

  /** A rental row; times are whole seconds, `end == None` is a NULL end time, the fee is in cents. */
  datatype Rental = Rental(user: UserId, bike: BikeId, start: int, end: Option<int>, totalFee: int)

  datatype Error =
    | BikeNotFound   // the rental (or the request) names a bike that does not exist
    | DuplicateName  // the unique constraint on bike names

  datatype State = State(bikes: map<BikeId, Bike>, rentals: map<RentalId, Rental>)

  /** A bike as created with only its name and description given. */
  function NewBike(name: string, description: string): (b: Bike)
    ensures b.name == name && b.description == description
    ensures b.isAvailable && b.hourlyRate == DefaultHourlyRate
  {
    Bike(name, description, true, DefaultHourlyRate)
  }

  /** A rental as created with only its user, bike and start time given. */
  function NewRental(user: UserId, bike: BikeId, start: int): (r: Rental)
    ensures r.user == user && r.bike == bike && r.start == start
    ensures r.end == None && r.totalFee == 0
  {
    Rental(user, bike, start, None, 0)
  }

  predicate IsOpen(r: Rental)
  {
    r.end.None?
  }

  /** The guard of the save hook: an end time is set and the fee is still zero. */
  predicate ClosesOnSave(r: Rental)
    ensures ClosesOnSave(r) ==> !IsOpen(r) && r.totalFee == 0
    ensures IsOpen(r) || r.totalFee != 0 ==> !ClosesOnSave(r)
  {
    r.end.Some? && r.totalFee == 0
  }

  /** The fee the hook computes for a rental with an end time, from its duration and the rate. */
  function ClosingFee(r: Rental, rateCents: int): (fee: int)
    requires r.end.Some?
    ensures r.end.value >= r.start && rateCents >= 0 ==> fee >= 0
  {
    var fee := Fee(r.end.value - r.start, rateCents);
    assert r.end.value >= r.start && rateCents >= 0 ==> fee >= 0 by {
      if r.end.value >= r.start && rateCents >= 0 {
        FeeNonNegative(r.end.value - r.start, rateCents);
      }
    }
    fee
  }

  predicate NameTaken(bikes: map<BikeId, Bike>, name: string)
  {
    exists b :: b in bikes && bikes[b].name == name
  }

  ghost predicate UniqueNames(bikes: map<BikeId, Bike>)
  {
    forall a, b :: a in bikes && b in bikes && a != b ==> bikes[a].name != bikes[b].name
  }

  /** What the database guarantees: every rental references an existing bike, and bike names are unique. */
  ghost predicate WellFormed(s: State)
  {
    && (forall id :: id in s.rentals ==> s.rentals[id].bike in s.bikes)
    && UniqueNames(s.bikes)
  }

  /** The open rentals of bike b. */
  ghost function OpenRentalsOf(s: State, b: BikeId): set<RentalId>
  {
    set id | id in s.rentals && s.rentals[id].bike == b && IsOpen(s.rentals[id])
  }

  /**
   * The consistency the rental lifecycle is meant to keep: a bike has at
   * most one open rental and is available exactly when it has none, and an
   * open rental has not been charged.
   */
  ghost predicate Consistent(s: State)
  {
    && (forall b :: b in s.bikes ==> |OpenRentalsOf(s, b)| <= 1)
    && (forall b :: b in s.bikes ==> (s.bikes[b].isAvailable <==> OpenRentalsOf(s, b) == {}))
    && (forall id :: id in s.rentals && IsOpen(s.rentals[id]) ==> s.rentals[id].totalFee == 0)
  }

  /**
   * Creating a bike under the fresh id `id`: the rate defaults to 50.00 and
   * the bike starts available; a name already in use is refused.
   */
  function AddBike(s: State, id: BikeId, name: string, description: string, rate: Option<int>): (res: Result<State, Error>)
    requires id !in s.bikes
    ensures res.Failure? <==> NameTaken(s.bikes, name)
    ensures res.Failure? ==> res.error == DuplicateName
    ensures res.Success? ==> res.value.rentals == s.rentals && res.value.bikes.Keys == s.bikes.Keys + {id}
    ensures res.Success? ==> forall b :: b in s.bikes ==> res.value.bikes[b] == s.bikes[b]
    ensures res.Success? ==> res.value.bikes[id] == NewBike(name, description).(hourlyRate := rate.GetOr(DefaultHourlyRate))
    ensures res.Success? && WellFormed(s) ==> WellFormed(res.value)
  {
    if NameTaken(s.bikes, name) then Failure(DuplicateName)
    else
      var b := NewBike(name, description).(hourlyRate := rate.GetOr(DefaultHourlyRate));
      Success(State(s.bikes[id := b], s.rentals))
  }

  /**
   * Saving the rental instance r under the id `id`, hook included. The
   * saved row is r except that, when the guard holds, the fee is computed
   * from r's duration and its bike's rate; the bike's availability becomes
   * the guard's value. Nothing else changes. A rental whose bike does not
   * exist is refused before anything is written.
   */
  function SaveRental(s: State, id: RentalId, r: Rental): (res: Result<State, Error>)
    ensures res.Success? <==> r.bike in s.bikes
    ensures res.Failure? ==> res.error == BikeNotFound
    ensures res.Success? ==> id in res.value.rentals && r.bike in res.value.bikes
    ensures res.Success? ==> res.value.rentals == s.rentals[id := r.(totalFee := res.value.rentals[id].totalFee)]
    ensures res.Success? ==> res.value.bikes == s.bikes[r.bike := s.bikes[r.bike].(isAvailable := res.value.bikes[r.bike].isAvailable)]
    ensures res.Success? && WellFormed(s) ==> WellFormed(res.value)
  {
    if r.bike !in s.bikes then Failure(BikeNotFound)
    else
      var bike := s.bikes[r.bike];
      if ClosesOnSave(r) then
        var saved := r.(totalFee := ClosingFee(r, bike.hourlyRate));
        Success(State(s.bikes[r.bike := bike.(isAvailable := true)], s.rentals[id := saved]))
      else
        Success(State(s.bikes[r.bike := bike.(isAvailable := false)], s.rentals[id := r]))
  }

  /** Deleting bike b, and with it every rental that references it. */
  function DeleteBike(s: State, b: BikeId): (t: State)
    ensures t.bikes.Keys == s.bikes.Keys - {b}
    ensures forall x :: x in t.bikes ==> t.bikes[x] == s.bikes[x]
    ensures forall id :: id in t.rentals <==> id in s.rentals && s.rentals[id].bike != b
    ensures forall id :: id in t.rentals ==> t.rentals[id] == s.rentals[id]
    ensures WellFormed(s) ==> WellFormed(t)
  {
    State(s.bikes - {b}, map id | id in s.rentals && s.rentals[id].bike != b :: s.rentals[id])
  }

  // ---------------------------------------------------------------------
  // The two branches of the save hook

  /** An open rental: its bike becomes unavailable and the row is stored as given, fee untouched. */
  lemma SaveOpenRental(s: State, id: RentalId, r: Rental)
    requires r.bike in s.bikes && IsOpen(r)
    ensures SaveRental(s, id, r).Success?
    ensures !SaveRental(s, id, r).value.bikes[r.bike].isAvailable
    ensures SaveRental(s, id, r).value.rentals[id] == r
  {
  }

  /**
   * A rental with an end time and a zero fee: the stored fee is the rounded
   * duration times the bike's rate, non-negative for a non-negative duration
   * and rate, and the bike becomes available.
   */
  lemma SaveClosingRental(s: State, id: RentalId, r: Rental)
    requires r.bike in s.bikes && ClosesOnSave(r)
    ensures SaveRental(s, id, r).Success?
    ensures SaveRental(s, id, r).value.bikes[r.bike].isAvailable
    ensures SaveRental(s, id, r).value.rentals[id] == r.(totalFee := Fee(r.end.value - r.start, s.bikes[r.bike].hourlyRate))
    ensures r.end.value >= r.start && s.bikes[r.bike].hourlyRate >= 0 ==> SaveRental(s, id, r).value.rentals[id].totalFee >= 0
  {
  }

  /**
   * A fee once nonzero is never recomputed; saving such a rental again takes
   * the other branch and marks its bike unavailable, closed or not.
   */
  lemma SaveChargedRental(s: State, id: RentalId, r: Rental)
    requires r.bike in s.bikes && r.totalFee != 0
    ensures SaveRental(s, id, r).Success?
    ensures SaveRental(s, id, r).value.rentals[id] == r
    ensures !SaveRental(s, id, r).value.bikes[r.bike].isAvailable
  {
  }

  /**
   * Saving the stored row a second time changes nothing exactly when the
   * first save did not charge a nonzero fee. In particular a closed rental
   * whose fee came out zero (no duration, or a zero rate) is recomputed to
   * the same zero and its bike stays available.
   */
  lemma {:induction false} SaveTwice(s: State, id: RentalId, r: Rental)
    requires r.bike in s.bikes
    ensures var t := SaveRental(s, id, r).value;
      SaveRental(t, id, t.rentals[id]) == Success(t)
      <==> !(ClosesOnSave(r) && Fee(r.end.value - r.start, s.bikes[r.bike].hourlyRate) != 0)
  {
    var t := SaveRental(s, id, r).value;
    var again := SaveRental(t, id, t.rentals[id]);
    assert t.bikes[r.bike].hourlyRate == s.bikes[r.bike].hourlyRate;
    if ClosesOnSave(r) && Fee(r.end.value - r.start, s.bikes[r.bike].hourlyRate) != 0 {
      assert !again.value.bikes[r.bike].isAvailable;
      assert t.bikes[r.bike].isAvailable;
    } else {
      assert again.value.rentals == t.rentals;
      assert again.value.bikes == t.bikes;
    }
  }

  // ---------------------------------------------------------------------
  // The consistency of availability and open rentals

  /** A set with at most one element that holds x holds nothing else. */
  lemma AtMostOne(S: set<RentalId>, x: RentalId)
    requires |S| <= 1 && x in S
    ensures S - {x} == {}
  {
    var rest := S - {x};
    assert S == rest + {x};
    assert |S| == |rest| + 1;
  }

  /** In a consistent state an unavailable bike has exactly one open rental. */
  lemma {:induction false} UnavailableHasOneOpenRental(s: State, b: BikeId)
    requires Consistent(s) && b in s.bikes && !s.bikes[b].isAvailable
    ensures exists x :: OpenRentalsOf(s, b) == {x}
  {
    var open := OpenRentalsOf(s, b);
    var x :| x in open;
    AtMostOne(open, x);
    assert open == {x};
  }

  /** Saving r under id leaves the open rentals of every other bike as they were. */
  lemma {:induction false} SaveOtherBikes(s: State, id: RentalId, r: Rental, b: BikeId)
    requires r.bike in s.bikes && b != r.bike
    requires id in s.rentals ==> s.rentals[id].bike == r.bike
    ensures OpenRentalsOf(SaveRental(s, id, r).value, b) == OpenRentalsOf(s, b)
  {
    var t := SaveRental(s, id, r).value;
    assert forall x :: x in t.rentals && x != id ==> t.rentals[x] == s.rentals[x];
  }

  /** Saving a new open rental of a bike with no open rental makes it that bike's only one. */
  lemma {:induction false} OpenRentalsAfterOpen(s: State, id: RentalId, r: Rental)
    requires id !in s.rentals && r.bike in s.bikes && IsOpen(r)
    requires OpenRentalsOf(s, r.bike) == {}
    ensures OpenRentalsOf(SaveRental(s, id, r).value, r.bike) == {id}
  {
    var t := SaveRental(s, id, r).value;
    assert t.rentals[id] == r;
    assert forall x :: x in t.rentals && x != id ==> t.rentals[x] == s.rentals[x];
  }

  /** Opening a rental on an available bike keeps the state consistent. */
  lemma {:induction false} OpenKeepsConsistent(s: State, id: RentalId, r: Rental)
    requires WellFormed(s) && Consistent(s)
    requires id !in s.rentals && r.bike in s.bikes && s.bikes[r.bike].isAvailable
    requires IsOpen(r) && r.totalFee == 0
    ensures Consistent(SaveRental(s, id, r).value)
  {
    var t := SaveRental(s, id, r).value;
    OpenRentalsAfterOpen(s, id, r);
    forall b | b in t.bikes && b != r.bike
      ensures OpenRentalsOf(t, b) == OpenRentalsOf(s, b)
    {
      SaveOtherBikes(s, id, r, b);
    }
    assert forall x :: x in t.rentals && IsOpen(t.rentals[x]) ==> t.rentals[x].totalFee == 0;
  }

  /** Closing an open rental (giving it an end time) keeps the state consistent. */
  lemma {:induction false} CloseKeepsConsistent(s: State, id: RentalId, endTime: int)
    requires WellFormed(s) && Consistent(s)
    requires id in s.rentals && IsOpen(s.rentals[id])
    ensures var r := s.rentals[id].(end := Some(endTime));
      Consistent(SaveRental(s, id, r).value)
  {
    var r := s.rentals[id].(end := Some(endTime));
    var t := SaveRental(s, id, r).value;
    assert ClosesOnSave(r);
    assert OpenRentalsOf(t, r.bike) == OpenRentalsOf(s, r.bike) - {id} by {
      assert forall x :: x in t.rentals && x != id ==> t.rentals[x] == s.rentals[x];
    }
    AtMostOne(OpenRentalsOf(s, r.bike), id);
    forall b | b in t.bikes && b != r.bike
      ensures OpenRentalsOf(t, b) == OpenRentalsOf(s, b)
    {
      SaveOtherBikes(s, id, r, b);
    }
  }

  /** Saving a closed rental again leaves the open rentals of its bike as they were. */
  lemma {:induction false} ResaveClosedOpenRentals(s: State, id: RentalId)
    requires id in s.rentals && !IsOpen(s.rentals[id]) && s.rentals[id].bike in s.bikes
    ensures var t := SaveRental(s, id, s.rentals[id]).value;
      OpenRentalsOf(t, s.rentals[id].bike) == OpenRentalsOf(s, s.rentals[id].bike)
  {
    var r := s.rentals[id];
    var t := SaveRental(s, id, r).value;
    assert t.rentals[id].end == r.end;
    assert forall x :: x in t.rentals && x != id ==> t.rentals[x] == s.rentals[x];
  }

  /**
   * Saving again a closed, charged rental of a bike that has no open rental
   * marks the bike unavailable although nothing rents it: the state is no
   * longer consistent.
   */
  lemma {:induction false} ResaveChargedBreaksConsistency(s: State, id: RentalId)
    requires WellFormed(s) && Consistent(s)
    requires id in s.rentals && !IsOpen(s.rentals[id]) && s.rentals[id].totalFee != 0
    requires s.bikes[s.rentals[id].bike].isAvailable
    ensures !Consistent(SaveRental(s, id, s.rentals[id]).value)
  {
    var r := s.rentals[id];
    var t := SaveRental(s, id, r).value;
    ResaveClosedOpenRentals(s, id);
    assert r.bike in t.bikes && !t.bikes[r.bike].isAvailable && OpenRentalsOf(t, r.bike) == {};
  }

  /**
   * Saving again a closed rental whose fee came out zero, while its bike is
   * out on another rental, marks the bike available although it is rented:
   * the state is no longer consistent.
   */
  lemma {:induction false} ResaveUnchargedBreaksConsistency(s: State, id: RentalId)
    requires WellFormed(s) && Consistent(s)
    requires id in s.rentals && !IsOpen(s.rentals[id]) && s.rentals[id].totalFee == 0
    requires !s.bikes[s.rentals[id].bike].isAvailable
    ensures !Consistent(SaveRental(s, id, s.rentals[id]).value)
  {
    var r := s.rentals[id];
    var t := SaveRental(s, id, r).value;
    ResaveClosedOpenRentals(s, id);
    assert OpenRentalsOf(s, r.bike) != {};
    assert r.bike in t.bikes && t.bikes[r.bike].isAvailable && OpenRentalsOf(t, r.bike) != {};
  }

  /** Deleting a bike keeps the state consistent. */
  lemma {:induction false} DeleteKeepsConsistent(s: State, b: BikeId)
    requires Consistent(s)
    ensures Consistent(DeleteBike(s, b))
  {
    var t := DeleteBike(s, b);
    forall x | x in t.bikes
      ensures OpenRentalsOf(t, x) == OpenRentalsOf(s, x)
    {
    }
  }

  // ---------------------------------------------------------------------
  // The database, updated in place

  class Store {
    var bikes: map<BikeId, Bike>
    var rentals: map<RentalId, Rental>
    /** The ids the next inserted bike and rental receive. */
    var nextBikeId: BikeId
    var nextRentalId: RentalId

    ghost predicate Valid()
      reads this
    {
      && WellFormed(State(bikes, rentals))
      && (forall b :: b in bikes ==> b < nextBikeId)
      && (forall id :: id in rentals ==> id < nextRentalId)
    }

    function Snapshot(): State
      reads this
    {
      State(bikes, rentals)
    }

    constructor ()
      ensures Valid()
      ensures bikes == map[] && rentals == map[]
    {
      bikes, rentals := map[], map[];
      nextBikeId, nextRentalId := 0, 0;
    }

    /** Inserts a bike under the next bike id; a duplicate name is refused and nothing changes. */
    method CreateBike(name: string, description: string, rate: Option<int>) returns (res: Result<BikeId, Error>)
      requires Valid()
      modifies this
      ensures Valid()
      ensures old(nextBikeId) !in old(bikes)
      ensures match AddBike(old(Snapshot()), old(nextBikeId), name, description, rate)
        case Success(t) => res == Success(old(nextBikeId)) && Snapshot() == t
        case Failure(e) => res == Failure(e) && Snapshot() == old(Snapshot())
      ensures res.Failure? ==> nextBikeId == old(nextBikeId)
      ensures nextRentalId == old(nextRentalId)
    {
      var id := nextBikeId;
      var added := AddBike(Snapshot(), id, name, description, rate);
      match added
      case Success(t) =>
        bikes := t.bikes;
        nextBikeId := id + 1;
        res := Success(id);
      case Failure(e) =>
        res := Failure(e);
    }

    /**
     * Saves the rental instance r under id, running the hook. Returns the
     * row as stored (with the fee the hook computed), or the error when r's
     * bike does not exist, in which case nothing changes.
     */
    method Save(id: RentalId, r: Rental) returns (res: Result<Rental, Error>)
      requires Valid()
      modifies this
      ensures Valid()
      ensures match SaveRental(old(Snapshot()), id, r)
        case Success(t) => Snapshot() == t && res == Success(t.rentals[id])
        case Failure(e) => Snapshot() == old(Snapshot()) && res == Failure(e)
      ensures nextBikeId == old(nextBikeId)
      ensures nextRentalId == if res.Success? && old(nextRentalId) <= id then id + 1 else old(nextRentalId)
    {
      if r.bike !in bikes {
        return Failure(BikeNotFound);
      }
      var saved := r;
      if r.end.Some? && r.totalFee == 0 {
        saved := r.(totalFee := ClosingFee(r, bikes[r.bike].hourlyRate));
        bikes := bikes[r.bike := bikes[r.bike].(isAvailable := true)];
      } else {
        bikes := bikes[r.bike := bikes[r.bike].(isAvailable := false)];
      }
      rentals := rentals[id := saved];
      if nextRentalId <= id {
        nextRentalId := id + 1;
      }
      res := Success(saved);
    }

    /** Deletes bike b and every rental that references it; an absent bike changes nothing. */
    method DeleteBikeCascade(b: BikeId)
      requires Valid()
      modifies this
      ensures Valid()
      ensures Snapshot() == DeleteBike(old(Snapshot()), b)
      ensures b !in old(bikes) ==> Snapshot() == old(Snapshot())
      ensures nextBikeId == old(nextBikeId) && nextRentalId == old(nextRentalId)
    {
      var t := DeleteBike(Snapshot(), b);
      bikes, rentals := t.bikes, t.rentals;
    }
  }
}
