/**
 * The persistent entities and their repositories. Each JPA repository is a
 * class holding its table: a map from generated id to entity, or, for the
 * bookings, an append-only sequence whose index is the booking id (no core
 * operation deletes a booking). The invariants the services keep between them
 * are stated over the tables' values.
 */
module Store {
  import opened Common

  datatype BookingStatus = Confirmed | Waitlisted | Cancelled

  datatype Airline = Airline(codeIATA: string, codeICAO: string, name: string, country: string, fleetSize: string)

  /** Times are instants in nanoseconds; basePrice is an exact decimal. */
  datatype Flight = Flight(
    airlineId: nat,
    flightNumber: string,
    origin: string,
    destination: string,
    departure: int,
    arrival: int,
    basePrice: real,
    capacity: int,
    bookedSeats: int)

  datatype Passenger = Passenger(name: string, surname: string, email: string, loyaltyPoints: int)

  /** A booking refers to its flight and passenger by id; price is the price locked in at creation. */
  datatype Booking = Booking(
    flightId: nat,
    passengerId: nat,
    seatNumber: string,
    status: BookingStatus,
    price: real,
    createDate: int)

  datatype User = User(firstName: string, lastName: string, email: string, password: string, role: string, active: bool)

  class AirlineRepository {
    var airlines: map<nat, Airline>
    var nextId: nat

    /** Generated ids are never reused. */
    ghost predicate Valid() reads this {
      forall id :: id in airlines ==> id < nextId
    }

    constructor ()
      ensures Valid() && airlines == map[]
    {
      airlines, nextId := map[], 0;
    }

    method Save(a: Airline) returns (id: nat)
      requires Valid()
      modifies this
      ensures Valid() && id !in old(airlines) && airlines == old(airlines)[id := a]
    {
      id := nextId;
      airlines, nextId := airlines[id := a], nextId + 1;
    }

    method Update(id: nat, a: Airline)
      requires Valid() && id in airlines
      modifies this
      ensures Valid() && airlines == old(airlines)[id := a] && nextId == old(nextId)
    {
      airlines := airlines[id := a];
    }

    method Delete(id: nat)
      requires Valid()
      modifies this
      ensures Valid() && airlines == old(airlines) - {id} && nextId == old(nextId)
    {
      airlines := airlines - {id};
    }
  }

  class FlightRepository {
    var flights: map<nat, Flight>
    var nextId: nat

    /** Generated ids are never reused. */
    ghost predicate Valid() reads this {
      forall id :: id in flights ==> id < nextId
    }

    constructor ()
      ensures Valid() && flights == map[]
    {
      flights, nextId := map[], 0;
    }

    method Save(f: Flight) returns (id: nat)
      requires Valid()
      modifies this
      ensures Valid() && id !in old(flights) && flights == old(flights)[id := f]
    {
      id := nextId;
      flights, nextId := flights[id := f], nextId + 1;
    }

    method Update(id: nat, f: Flight)
      requires Valid() && id in flights
      modifies this
      ensures Valid() && flights == old(flights)[id := f] && nextId == old(nextId)
    {
      flights := flights[id := f];
    }

    /** deleteAll / delete: removes the given ids. */
    method DeleteAll(ids: set<nat>)
      requires Valid()
      modifies this
      ensures Valid() && flights == old(flights) - ids && nextId == old(nextId)
    {
      flights := flights - ids;
    }
  }

  class PassengerRepository {
    var passengers: map<nat, Passenger>
    var nextId: nat

    /** Generated ids are never reused. */
    ghost predicate Valid() reads this {
      forall id :: id in passengers ==> id < nextId
    }

    constructor ()
      ensures Valid() && passengers == map[]
    {
      passengers, nextId := map[], 0;
    }

    method Save(p: Passenger) returns (id: nat)
      requires Valid()
      modifies this
      ensures Valid() && id !in old(passengers) && passengers == old(passengers)[id := p]
    {
      id := nextId;
      passengers, nextId := passengers[id := p], nextId + 1;
    }

    method Update(id: nat, p: Passenger)
      requires Valid() && id in passengers
      modifies this
      ensures Valid() && passengers == old(passengers)[id := p] && nextId == old(nextId)
    {
      passengers := passengers[id := p];
    }

    /** existsByEmail: an exact match on the stored e-mail. */
    predicate ExistsByEmail(email: string) reads this {
      exists id :: id in passengers && passengers[id].email == email
    }
  }

  class BookingRepository {
    var bookings: seq<Booking>

    constructor ()
      ensures bookings == []
    {
      bookings := [];
    }

    method Save(b: Booking) returns (id: nat)
      modifies this
      ensures id == |old(bookings)| && bookings == old(bookings) + [b]
    {
      id := |bookings|;
      bookings := bookings + [b];
    }

    method Update(id: nat, b: Booking)
      requires id < |bookings|
      modifies this
      ensures bookings == old(bookings)[id := b]
    {
      bookings := bookings[id := b];
    }
  }

  class UserRepository {
    var users: seq<User>

    constructor ()
      ensures users == []
    {
      users := [];
    }

    method Save(u: User)
      modifies this
      ensures users == old(users) + [u]
    {
      users := users + [u];
    }

    /** findByEmail(..).isPresent(): an exact match on the stored e-mail. */
    predicate ExistsByEmail(email: string) reads this {
      exists i :: 0 <= i < |users| && users[i].email == email
    }
  }

  predicate IsConfirmedOn(b: Booking, flightId: nat) {
    b.flightId == flightId && b.status == Confirmed
  }

  /** The number of CONFIRMED bookings the ledger holds for a flight. */
  function ConfirmedCount(bookings: seq<Booking>, flightId: nat): (n: nat)
    ensures n <= |bookings|
  {
    if bookings == [] then 0
    else
      var last := bookings[|bookings| - 1];
      ConfirmedCount(bookings[..|bookings| - 1], flightId) + (if IsConfirmedOn(last, flightId) then 1 else 0)
  }

  /** Appending a booking adds one to its flight's count exactly when it is CONFIRMED. */
  lemma ConfirmedCountAppend(bookings: seq<Booking>, b: Booking, flightId: nat)
    ensures ConfirmedCount(bookings + [b], flightId)
         == ConfirmedCount(bookings, flightId) + (if IsConfirmedOn(b, flightId) then 1 else 0)
  {
    assert (bookings + [b])[..|bookings|] == bookings;
  }

  /** Replacing one booking changes the count by what the old and the new booking contribute. */
  lemma {:induction false} ConfirmedCountUpdate(bookings: seq<Booking>, i: nat, b: Booking, flightId: nat)
    requires i < |bookings|
    ensures ConfirmedCount(bookings[i := b], flightId)
         == ConfirmedCount(bookings, flightId)
            - (if IsConfirmedOn(bookings[i], flightId) then 1 else 0)
            + (if IsConfirmedOn(b, flightId) then 1 else 0)
  {
    var n := |bookings| - 1;
    if i == n {
      assert bookings[i := b][..n] == bookings[..n];
    } else {
      ConfirmedCountUpdate(bookings[..n], i, b, flightId);
      assert bookings[i := b][..n] == bookings[..n][i := b];
    }
  }

  /** A flight no booking refers to has no CONFIRMED booking. */
  lemma {:induction false} ConfirmedCountUnreferenced(bookings: seq<Booking>, flightId: nat)
    requires forall i :: 0 <= i < |bookings| ==> bookings[i].flightId != flightId
    ensures ConfirmedCount(bookings, flightId) == 0
  {
    if bookings != [] {
      ConfirmedCountUnreferenced(bookings[..|bookings| - 1], flightId);
    }
  }

  /**
   * What flight creation and update guarantee of every stored flight (the
   * positive base price is the DTO's validation constraint). Creation stores
   * an arrival strictly after the departure; an update checks the times
   * before cutting them to the second, so it only keeps the arrival from
   * falling before the departure.
   */
  ghost predicate FlightValid(f: Flight) {
    50 <= f.capacity <= 400 && f.departure <= f.arrival && f.bookedSeats >= 0 && f.basePrice > 0.0
  }

  /**
   * A seat or passenger slot is never reused on a flight: the uniqueness checks
   * of booking creation look at bookings of every status, CANCELLED included.
   */
  ghost predicate SlotsUnique(bookings: seq<Booking>) {
    forall i, j :: 0 <= i < j < |bookings| && bookings[i].flightId == bookings[j].flightId ==>
      bookings[i].passengerId != bookings[j].passengerId &&
      !EqualsIgnoreCase(bookings[i].seatNumber, bookings[j].seatNumber)
  }

  /** The unique e-mail column of the passengers table. */
  ghost predicate EmailsUnique(passengers: map<nat, Passenger>) {
    forall a, b :: a in passengers && b in passengers && a != b ==> passengers[a].email != passengers[b].email
  }

  /**
   * The booking ledger invariant: flights are valid, every booking refers to a
   * stored flight and passenger, slots are unique, points are never negative,
   * and a flight's bookedSeats counter is never below its number of CONFIRMED
   * bookings (it can exceed it: a flight may be created with bookedSeats > 0).
   */
  ghost predicate Ledger(flights: map<nat, Flight>, passengers: map<nat, Passenger>, bookings: seq<Booking>) {
    && (forall id :: id in flights ==> FlightValid(flights[id]) && ConfirmedCount(bookings, id) <= flights[id].bookedSeats)
    && (forall i :: 0 <= i < |bookings| ==> bookings[i].flightId in flights && bookings[i].passengerId in passengers)
    && SlotsUnique(bookings)
    && (forall id :: id in passengers ==> passengers[id].loyaltyPoints >= 0)
    && EmailsUnique(passengers)
  }

  /**
   * Storing a valid flight under `id`, whose counter covers the flight's
   * CONFIRMED bookings, keeps the ledger invariant.
   */
  lemma {:induction false} StoringFlightKeepsLedger(flights: map<nat, Flight>, passengers: map<nat, Passenger>,
                                                    bookings: seq<Booking>, id: nat, g: Flight)
    requires Ledger(flights, passengers, bookings)
    requires FlightValid(g) && ConfirmedCount(bookings, id) <= g.bookedSeats
    ensures Ledger(flights[id := g], passengers, bookings)
  {
    var u := flights[id := g];
    forall fid | fid in u ensures FlightValid(u[fid]) && ConfirmedCount(bookings, fid) <= u[fid].bookedSeats {
      if fid != id {
        assert u[fid] == flights[fid];
      }
    }
  }

  /** The unique IATA and ICAO columns of the airlines table. */
  ghost predicate CodesUnique(airlines: map<nat, Airline>) {
    forall a, b :: a in airlines && b in airlines && a != b ==>
      airlines[a].codeIATA != airlines[b].codeIATA && airlines[a].codeICAO != airlines[b].codeICAO
  }

  /** The unique (flight_number, departure_time) constraint of the flights table. */
  ghost predicate ScheduleUnique(flights: map<nat, Flight>) {
    forall a, b :: a in flights && b in flights && a != b ==>
      flights[a].flightNumber != flights[b].flightNumber || flights[a].departure != flights[b].departure
  }

  /**
   * The catalogue invariant: every flight belongs to a stored airline; airline
   * codes are unique; no two flights share a number and a departure instant.
   */
  ghost predicate Catalogue(airlines: map<nat, Airline>, flights: map<nat, Flight>) {
    && (forall id :: id in flights ==> flights[id].airlineId in airlines)
    && CodesUnique(airlines)
    && ScheduleUnique(flights)
  }
}
