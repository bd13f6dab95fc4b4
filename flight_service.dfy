/**
 * FlightServiceImpl: flight creation, update and deletion with their schedule
 * checks. Instants are LocalDateTime values counted in nanoseconds from
 * 1970-01-01T00:00; a calendar day is a block of DayNanos of them.
 */
module FlightService {
  import opened Common
  import opened Store

  const SecondNanos: int := 1_000_000_000
  const DayNanos: int := 86_400 * SecondNanos

  /** The FlightDTO fields the service reads; times may be missing. */
  datatype FlightDto = FlightDto(
    flightNumber: string,
    origin: string,
    destination: string,
    departure: Option<int>,
    arrival: Option<int>,
    basePrice: real,
    capacity: int,
    bookedSeats: int,
    airlineId: nat)

  // ---------------------------------------------------------------- time

  /** LocalDateTime.withNano(0): the start of the instant's second. */
  function WithNano0(t: int): (r: int)
    ensures r <= t < r + SecondNanos && r % SecondNanos == 0
  {
    t - t % SecondNanos
  }

  /** toLocalDate().atStartOfDay(): the start of the instant's calendar day. */
  function StartOfDay(t: int): (r: int)
    ensures r <= t < r + DayNanos && r % DayNanos == 0
  {
    t - t % DayNanos
  }

  /** Two instants on the same calendar day. */
  predicate SameCalendarDay(a: int, b: int) {
    a / DayNanos == b / DayNanos
  }

  /**
   * The window validateDuplicateFlight queries, as written: from the start of
   * the day to one second before the next day starts, both ends included.
   */
  predicate InDuplicateWindowAsWritten(departure: int, t: int) {
    StartOfDay(departure) <= t <= StartOfDay(departure) + DayNanos - SecondNanos
  }

  /** The as-written window never reaches into another day, but misses the day's last half second. */
  lemma DuplicateWindowMissesLastSecond(departure: int, t: int)
    ensures InDuplicateWindowAsWritten(departure, t) ==> SameCalendarDay(departure, t)
    ensures var late := StartOfDay(departure) + DayNanos - SecondNanos / 2;
            SameCalendarDay(departure, late) && !InDuplicateWindowAsWritten(departure, late)
  {
    var s := StartOfDay(departure);
    assert s / DayNanos == departure / DayNanos;
  }

  /** The corrected window, the whole calendar day: exactly the instants on the same day. */
  lemma SameDayWindow(departure: int, t: int)
    ensures SameCalendarDay(departure, t) <==> StartOfDay(departure) <= t < StartOfDay(departure) + DayNanos
  {
    var s := StartOfDay(departure);
    assert s / DayNanos == departure / DayNanos;
    if s <= t < s + DayNanos {
      assert (t - s) / DayNanos == 0;
    }
  }

  // ---------------------------------------------------------------- validators

  /** validateCapacityRange. */
  function ValidateCapacityRange(capacity: int): (e: Option<Error>)
    ensures e.None? <==> 50 <= capacity <= 400
    ensures e.Some? ==> e.value == BadRequest(CapacityOutOfRange)
  {
    if capacity < 50 || capacity > 400 then Some(BadRequest(CapacityOutOfRange)) else None
  }

  /** validateDates: both times present (checked first), arrival strictly after departure. */
  function ValidateDates(departure: Option<int>, arrival: Option<int>): (e: Option<Error>)
    ensures e.None? <==> departure.Some? && arrival.Some? && departure.value < arrival.value
    ensures (departure.None? || arrival.None?) ==> e == Some(BadRequest(TimesMissing))
  {
    if departure.None? || arrival.None? then Some(BadRequest(TimesMissing))
    else if !(departure.value < arrival.value) then Some(BadRequest(ArrivalNotAfterDeparture))
    else None
  }

  /**
   * updateFlight validates the times before dropping their nanoseconds, so an
   * arrival in the same second as the departure passes and is stored equal to it.
   */
  lemma UpdateDatesAsWrittenAdmitsEqualTimes()
    ensures ValidateDates(Some(100_000_000), Some(500_000_000)).None?
    ensures WithNano0(100_000_000) == WithNano0(500_000_000)
  {
  }

  /** The corrected update check: validateDates applied to the times updateFlight stores. */
  function ValidateStoredDates(departure: Option<int>, arrival: Option<int>): (e: Option<Error>)
    ensures e.None? ==> ValidateDates(departure, arrival).None?
    ensures e.None? <==> departure.Some? && arrival.Some? && WithNano0(departure.value) < WithNano0(arrival.value)
  {
    ValidateDates(if departure.Some? then Some(WithNano0(departure.value)) else None,
                  if arrival.Some? then Some(WithNano0(arrival.value)) else None)
  }

  /** The flights a query may see: all of them on create, all but the one being updated on update. */
  predicate Considered(id: nat, excludeId: Option<nat>) {
    excludeId != Some(id)
  }

  /**
   * validateDuplicateFlight as written: another flight with the same number,
   * airline and origin departing in the as-written window.
   */
  predicate DuplicateOnDayAsWritten(flights: map<nat, Flight>, flightNumber: string, airlineId: nat, origin: string,
                                      departure: int, excludeId: Option<nat>) {
    exists id :: id in flights && Considered(id, excludeId) &&
      flights[id].flightNumber == flightNumber && flights[id].airlineId == airlineId && flights[id].origin == origin &&
      InDuplicateWindowAsWritten(departure, flights[id].departure)
  }

  /** validateDuplicateFlight, corrected: the same, over the whole calendar day. */
  predicate DuplicateOnDay(flights: map<nat, Flight>, flightNumber: string, airlineId: nat, origin: string,
                             departure: int, excludeId: Option<nat>) {
    exists id :: id in flights && Considered(id, excludeId) &&
      flights[id].flightNumber == flightNumber && flights[id].airlineId == airlineId && flights[id].origin == origin &&
      SameCalendarDay(departure, flights[id].departure)
  }

  /** Every duplicate the source finds the corrected check finds too. */
  lemma DuplicateAsWrittenIsDuplicate(flights: map<nat, Flight>, flightNumber: string, airlineId: nat, origin: string,
                                      departure: int, excludeId: Option<nat>)
    ensures DuplicateOnDayAsWritten(flights, flightNumber, airlineId, origin, departure, excludeId) ==>
            DuplicateOnDay(flights, flightNumber, airlineId, origin, departure, excludeId)
  {
    if DuplicateOnDayAsWritten(flights, flightNumber, airlineId, origin, departure, excludeId) {
      var id :| id in flights && Considered(id, excludeId) &&
        flights[id].flightNumber == flightNumber && flights[id].airlineId == airlineId && flights[id].origin == origin &&
        InDuplicateWindowAsWritten(departure, flights[id].departure);
      DuplicateWindowMissesLastSecond(departure, flights[id].departure);
    }
  }

  /** Two flights' intervals overlap: each departs before the other arrives. */
  predicate Overlaps(departure: int, arrival: int, otherDeparture: int, otherArrival: int) {
    otherDeparture < arrival && otherArrival > departure
  }

  /** Overlap is symmetric, and back-to-back flights (one arrives as the other departs) do not overlap. */
  lemma OverlapsSymmetricNotBackToBack(d1: int, a1: int, d2: int, a2: int)
    ensures Overlaps(d1, a1, d2, a2) <==> Overlaps(d2, a2, d1, a1)
    ensures a1 == d2 ==> !Overlaps(d1, a1, d2, a2)
    ensures d1 < a1 && d2 < a2 && d1 <= d2 < a1 ==> Overlaps(d1, a1, d2, a2)
  {
  }

  /** validateTimeConflict: another flight with the same number and airline in an overlapping interval. */
  predicate TimeConflict(flights: map<nat, Flight>, flightNumber: string, airlineId: nat,
                         departure: int, arrival: int, excludeId: Option<nat>) {
    exists id :: id in flights && Considered(id, excludeId) &&
      flights[id].flightNumber == flightNumber && flights[id].airlineId == airlineId &&
      Overlaps(departure, arrival, flights[id].departure, flights[id].arrival)
  }

  /**
   * The unique (flight_number, departure_time) constraint, as the store checks
   * it when a row is written: another row already holds this number at this instant.
   */
  predicate ScheduleTaken(flights: map<nat, Flight>, flightNumber: string, departure: int, excludeId: Option<nat>) {
    exists id :: id in flights && Considered(id, excludeId) &&
      flights[id].flightNumber == flightNumber && flights[id].departure == departure
  }

  /** Writing a flight whose number and departure no other row holds keeps the constraint. */
  lemma {:induction false} FreeScheduleKeepsUnique(flights: map<nat, Flight>, id: nat, g: Flight)
    requires ScheduleUnique(flights)
    requires !ScheduleTaken(flights, g.flightNumber, g.departure, Some(id))
    ensures ScheduleUnique(flights[id := g])
  {
    var u := flights[id := g];
    forall a, b | a in u && b in u && a != b
      ensures u[a].flightNumber != u[b].flightNumber || u[a].departure != u[b].departure
    {
      if a == id {
        assert b in flights && Considered(b, Some(id)) && u[b] == flights[b];
      } else if b == id {
        assert a in flights && Considered(a, Some(id)) && u[a] == flights[a];
      } else {
        assert u[a] == flights[a] && u[b] == flights[b];
      }
    }
  }

  /** Cutting to the second keeps the order of two instants, though it may make them equal. */
  lemma WithNano0Monotone(a: int, b: int)
    requires a <= b
    ensures WithNano0(a) <= WithNano0(b)
  {
    assert a / SecondNanos <= b / SecondNanos;
    assert WithNano0(a) == a / SecondNanos * SecondNanos;
    assert WithNano0(b) == b / SecondNanos * SecondNanos;
  }

  // ---------------------------------------------------------------- create

  /** The flight createFlight stores: the DTO as given, bookedSeats floored at zero. */
  function NewFlight(dto: FlightDto): (f: Flight)
    requires dto.departure.Some? && dto.arrival.Some?
    ensures f.bookedSeats >= 0 && (dto.bookedSeats >= 0 ==> f.bookedSeats == dto.bookedSeats)
    ensures f.flightNumber == dto.flightNumber && f.departure == dto.departure.value && f.arrival == dto.arrival.value
  {
    Flight(dto.airlineId, dto.flightNumber, dto.origin, dto.destination, dto.departure.value, dto.arrival.value,
           dto.basePrice, dto.capacity, if dto.bookedSeats >= 0 then dto.bookedSeats else 0)
  }

  /**
   * createFlight's checks in order: capacity, times, bookedSeats against
   * capacity, airline, same-day duplicate (as written), time conflict, and
   * finally the unique (number, departure) constraint when the row is saved.
   */
  function CreateRejection(flights: map<nat, Flight>, airlines: map<nat, Airline>, dto: FlightDto): (e: Option<Error>)
    ensures e.None? <==>
      && 50 <= dto.capacity <= 400
      && dto.departure.Some? && dto.arrival.Some? && dto.departure.value < dto.arrival.value
      && dto.bookedSeats <= dto.capacity
      && dto.airlineId in airlines
      && !DuplicateOnDayAsWritten(flights, dto.flightNumber, dto.airlineId, dto.origin, dto.departure.value, None)
      && !TimeConflict(flights, dto.flightNumber, dto.airlineId, dto.departure.value, dto.arrival.value, None)
      && !ScheduleTaken(flights, dto.flightNumber, dto.departure.value, None)
    ensures !(50 <= dto.capacity <= 400) ==> e == Some(BadRequest(CapacityOutOfRange))
    ensures 50 <= dto.capacity <= 400 && (dto.departure.None? || dto.arrival.None?) ==> e == Some(BadRequest(TimesMissing))
    ensures 50 <= dto.capacity <= 400 && dto.departure.Some? && dto.arrival.Some? && dto.arrival.value <= dto.departure.value
            ==> e == Some(BadRequest(ArrivalNotAfterDeparture))
    ensures 50 <= dto.capacity <= 400 && dto.departure.Some? && dto.arrival.Some? && dto.departure.value < dto.arrival.value ==>
      && (dto.bookedSeats > dto.capacity ==> e == Some(BadRequest(BookedExceedsCapacity)))
      && (dto.bookedSeats <= dto.capacity && dto.airlineId !in airlines ==> e == Some(NotFound))
      && (dto.bookedSeats <= dto.capacity && dto.airlineId in airlines ==>
            var duplicate := DuplicateOnDayAsWritten(flights, dto.flightNumber, dto.airlineId, dto.origin, dto.departure.value, None);
            var overlap := TimeConflict(flights, dto.flightNumber, dto.airlineId, dto.departure.value, dto.arrival.value, None);
            && (duplicate ==> e == Some(FlightConflict(SameDayDuplicate)))
            && (!duplicate && overlap ==> e == Some(FlightConflict(TimeOverlap)))
            && (!duplicate && !overlap && ScheduleTaken(flights, dto.flightNumber, dto.departure.value, None) ==> e == Some(ConstraintViolation)))
  {
    if ValidateCapacityRange(dto.capacity).Some? then ValidateCapacityRange(dto.capacity)
    else if ValidateDates(dto.departure, dto.arrival).Some? then ValidateDates(dto.departure, dto.arrival)
    else if dto.bookedSeats > dto.capacity then Some(BadRequest(BookedExceedsCapacity))
    else if dto.airlineId !in airlines then Some(NotFound)
    else if DuplicateOnDayAsWritten(flights, dto.flightNumber, dto.airlineId, dto.origin, dto.departure.value, None)
    then Some(FlightConflict(SameDayDuplicate))
    else if TimeConflict(flights, dto.flightNumber, dto.airlineId, dto.departure.value, dto.arrival.value, None)
    then Some(FlightConflict(TimeOverlap))
    else if ScheduleTaken(flights, dto.flightNumber, dto.departure.value, None) then Some(ConstraintViolation)
    else None
  }

  /** A created flight keeps the ledger and catalogue invariants: it is valid, belongs to a stored airline, and has no bookings. */
  lemma {:induction false} CreateKeepsInvariants(flights: map<nat, Flight>, passengers: map<nat, Passenger>, bookings: seq<Booking>,
                                                 airlines: map<nat, Airline>, dto: FlightDto, id: nat)
    requires Ledger(flights, passengers, bookings) && Catalogue(airlines, flights) && id !in flights
    requires CreateRejection(flights, airlines, dto).None? && dto.basePrice > 0.0
    ensures Ledger(flights[id := NewFlight(dto)], passengers, bookings)
    ensures Catalogue(airlines, flights[id := NewFlight(dto)])
    ensures NewFlight(dto).departure < NewFlight(dto).arrival
  {
    ConfirmedCountUnreferenced(bookings, id);
    StoringFlightKeepsLedger(flights, passengers, bookings, id, NewFlight(dto));
    assert !ScheduleTaken(flights, NewFlight(dto).flightNumber, NewFlight(dto).departure, Some(id)) by {
      assert !ScheduleTaken(flights, dto.flightNumber, dto.departure.value, None);
    }
    FreeScheduleKeepsUnique(flights, id, NewFlight(dto));
  }

  /** createFlight: the first failed check changes nothing; otherwise the new flight is stored under a fresh id. */
  method CreateFlight(ar: AirlineRepository, fr: FlightRepository, dto: FlightDto) returns (r: Result<nat>)
    requires fr.Valid()
    modifies fr
    ensures fr.Valid()
    ensures var e := CreateRejection(old(fr.flights), ar.airlines, dto);
      && (e.Some? ==> r == Err(e.value) && fr.flights == old(fr.flights))
      && (e.None? ==> r.Ok? && r.value !in old(fr.flights) && fr.flights == old(fr.flights)[r.value := NewFlight(dto)])
  {
    var capacityError := ValidateCapacityRange(dto.capacity);
    if capacityError.Some? {
      return Err(capacityError.value);
    }
    var datesError := ValidateDates(dto.departure, dto.arrival);
    if datesError.Some? {
      return Err(datesError.value);
    }
    if dto.bookedSeats > dto.capacity {
      return Err(BadRequest(BookedExceedsCapacity));
    }
    if dto.airlineId !in ar.airlines {
      return Err(NotFound);
    }
    if DuplicateOnDayAsWritten(fr.flights, dto.flightNumber, dto.airlineId, dto.origin, dto.departure.value, None) {
      return Err(FlightConflict(SameDayDuplicate));
    }
    if TimeConflict(fr.flights, dto.flightNumber, dto.airlineId, dto.departure.value, dto.arrival.value, None) {
      return Err(FlightConflict(TimeOverlap));
    }
    if ScheduleTaken(fr.flights, dto.flightNumber, dto.departure.value, None) {
      return Err(ConstraintViolation);
    }
    var id := fr.Save(NewFlight(dto));
    r := Ok(id);
  }

  // ---------------------------------------------------------------- update

  /**
   * updateFlightFields: number trimmed and upper-cased, places trimmed, times
   * cut to the second, price, capacity and airline replaced; bookedSeats kept.
   */
  function UpdatedFlight(existing: Flight, dto: FlightDto): (u: Flight)
    requires dto.departure.Some? && dto.arrival.Some?
    ensures u.bookedSeats == existing.bookedSeats
    ensures u.departure % SecondNanos == 0 && u.arrival % SecondNanos == 0
    ensures u.departure <= dto.departure.value < u.departure + SecondNanos
    ensures u.arrival <= dto.arrival.value < u.arrival + SecondNanos
  {
    existing.(flightNumber := ToUpper(Trim(dto.flightNumber)), origin := Trim(dto.origin), destination := Trim(dto.destination),
              departure := WithNano0(dto.departure.value), arrival := WithNano0(dto.arrival.value),
              basePrice := dto.basePrice, capacity := dto.capacity, airlineId := dto.airlineId)
  }

  /** isNoChange: every field as updateFlightFields would normalise it equals the stored one. */
  predicate IsNoChange(existing: Flight, dto: FlightDto)
    requires dto.departure.Some? && dto.arrival.Some?
  {
    && existing.flightNumber == ToUpper(Trim(dto.flightNumber))
    && existing.origin == Trim(dto.origin)
    && existing.destination == Trim(dto.destination)
    && WithNano0(existing.departure) == WithNano0(dto.departure.value)
    && WithNano0(existing.arrival) == WithNano0(dto.arrival.value)
    && existing.basePrice == dto.basePrice
    && existing.capacity == dto.capacity
    && existing.airlineId == dto.airlineId
  }

  /**
   * For a flight whose times are whole seconds (every flight updateFlight has
   * stored), "no change" means exactly that the update would store the same flight.
   */
  lemma NoChangeIsIdentity(existing: Flight, dto: FlightDto)
    requires dto.departure.Some? && dto.arrival.Some?
    requires existing.departure % SecondNanos == 0 && existing.arrival % SecondNanos == 0
    ensures IsNoChange(existing, dto) <==> UpdatedFlight(existing, dto) == existing
  {
  }

  /**
   * updateFlight's checks in order: unknown id; capacity; times (on the times
   * as sent, before they are cut to the second); same-day duplicate (as
   * written) and time conflict under the flight's current airline, other
   * flights only; no change; an unknown new airline; finally the unique
   * (number, departure) constraint on the row as it is saved.
   */
  function UpdateRejection(flights: map<nat, Flight>, airlines: map<nat, Airline>, id: nat, dto: FlightDto): (e: Option<Error>)
    ensures e.None? <==>
      && id in flights
      && 50 <= dto.capacity <= 400
      && dto.departure.Some? && dto.arrival.Some? && dto.departure.value < dto.arrival.value
      && !DuplicateOnDayAsWritten(flights, dto.flightNumber, flights[id].airlineId, dto.origin, dto.departure.value, Some(id))
      && !TimeConflict(flights, dto.flightNumber, flights[id].airlineId, dto.departure.value, dto.arrival.value, Some(id))
      && !IsNoChange(flights[id], dto)
      && (dto.airlineId == flights[id].airlineId || dto.airlineId in airlines)
      && !ScheduleTaken(flights, UpdatedFlight(flights[id], dto).flightNumber, UpdatedFlight(flights[id], dto).departure, Some(id))
    ensures id !in flights ==> e == Some(NotFound)
    ensures id in flights && !(50 <= dto.capacity <= 400) ==> e == Some(BadRequest(CapacityOutOfRange))
    ensures id in flights && 50 <= dto.capacity <= 400 && (dto.departure.None? || dto.arrival.None?)
            ==> e == Some(BadRequest(TimesMissing))
    ensures id in flights && 50 <= dto.capacity <= 400 && dto.departure.Some? && dto.arrival.Some? && dto.arrival.value <= dto.departure.value
            ==> e == Some(BadRequest(ArrivalNotAfterDeparture))
    ensures id in flights && 50 <= dto.capacity <= 400 && dto.departure.Some? && dto.arrival.Some? && dto.departure.value < dto.arrival.value ==>
      var existing := flights[id];
      var duplicate := DuplicateOnDayAsWritten(flights, dto.flightNumber, existing.airlineId, dto.origin, dto.departure.value, Some(id));
      var overlap := TimeConflict(flights, dto.flightNumber, existing.airlineId, dto.departure.value, dto.arrival.value, Some(id));
      var noChange := IsNoChange(existing, dto);
      var airlineMissing := existing.airlineId != dto.airlineId && dto.airlineId !in airlines;
      && (duplicate ==> e == Some(FlightConflict(SameDayDuplicate)))
      && (!duplicate && overlap ==> e == Some(FlightConflict(TimeOverlap)))
      && (!duplicate && !overlap && noChange ==> e == Some(BadRequest(NoChanges)))
      && (!duplicate && !overlap && !noChange && airlineMissing ==> e == Some(NotFound))
      && (!duplicate && !overlap && !noChange && !airlineMissing &&
          ScheduleTaken(flights, UpdatedFlight(existing, dto).flightNumber, UpdatedFlight(existing, dto).departure, Some(id))
          ==> e == Some(ConstraintViolation))
  {
    if id !in flights then Some(NotFound)
    else
      var existing := flights[id];
      if ValidateCapacityRange(dto.capacity).Some? then ValidateCapacityRange(dto.capacity)
      else if ValidateDates(dto.departure, dto.arrival).Some? then ValidateDates(dto.departure, dto.arrival)
      else if DuplicateOnDayAsWritten(flights, dto.flightNumber, existing.airlineId, dto.origin, dto.departure.value, Some(id))
      then Some(FlightConflict(SameDayDuplicate))
      else if TimeConflict(flights, dto.flightNumber, existing.airlineId, dto.departure.value, dto.arrival.value, Some(id))
      then Some(FlightConflict(TimeOverlap))
      else if IsNoChange(existing, dto) then Some(BadRequest(NoChanges))
      else if existing.airlineId != dto.airlineId && dto.airlineId !in airlines then Some(NotFound)
      else
        var updated := UpdatedFlight(existing, dto);
        if ScheduleTaken(flights, updated.flightNumber, updated.departure, Some(id)) then Some(ConstraintViolation)
        else None
  }

  /**
   * An accepted update keeps the ledger and catalogue invariants; its
   * bookings and the bookedSeats counter are untouched, even when the new
   * capacity is below bookedSeats. The stored arrival is never before the
   * stored departure, though it may equal it.
   */
  lemma {:induction false} UpdateKeepsInvariants(flights: map<nat, Flight>, passengers: map<nat, Passenger>, bookings: seq<Booking>,
                                                 airlines: map<nat, Airline>, id: nat, dto: FlightDto)
    requires Ledger(flights, passengers, bookings) && Catalogue(airlines, flights)
    requires UpdateRejection(flights, airlines, id, dto).None? && dto.basePrice > 0.0
    ensures Ledger(flights[id := UpdatedFlight(flights[id], dto)], passengers, bookings)
    ensures Catalogue(airlines, flights[id := UpdatedFlight(flights[id], dto)])
    ensures flights[id := UpdatedFlight(flights[id], dto)][id].bookedSeats == flights[id].bookedSeats
  {
    var g := UpdatedFlight(flights[id], dto);
    WithNano0Monotone(dto.departure.value, dto.arrival.value);
    assert FlightValid(g) && g.airlineId in airlines;
    StoringFlightKeepsLedger(flights, passengers, bookings, id, g);
    FreeScheduleKeepsUnique(flights, id, g);
  }

  /**
   * The accepted update that stores an arrival equal to its departure: both
   * times fall in the same second, 0.1 s and 0.5 s after it.
   */
  lemma UpdateCanStoreEqualTimes()
    ensures var existing := Flight(1, "TK1", "IST", "ESB", 0, 3_600 * SecondNanos, 100.0, 100, 0);
            var dto := FlightDto("TK1", "IST", "ESB", Some(100_000_000), Some(500_000_000), 100.0, 200, 0, 1);
            var flights := map[7 := existing];
            && UpdateRejection(flights, map[1 := Airline("TK", "THY", "Turkish Airlines", "Turkey", "400")], 7, dto).None?
            && UpdatedFlight(existing, dto).departure == UpdatedFlight(existing, dto).arrival
  {
    var existing := Flight(1, "TK1", "IST", "ESB", 0, 3_600 * SecondNanos, 100.0, 100, 0);
    var dto := FlightDto("TK1", "IST", "ESB", Some(100_000_000), Some(500_000_000), 100.0, 200, 0, 1);
    var flights := map[7 := existing];
    var airlines := map[1 := Airline("TK", "THY", "Turkish Airlines", "Turkey", "400")];
    assert forall k :: k in flights ==> k == 7;
    assert ValidateDates(dto.departure, dto.arrival).None?;
    assert !DuplicateOnDayAsWritten(flights, dto.flightNumber, 1, dto.origin, dto.departure.value, Some(7));
    assert !TimeConflict(flights, dto.flightNumber, 1, dto.departure.value, dto.arrival.value, Some(7));
    assert !IsNoChange(existing, dto) by {
      assert existing.capacity != dto.capacity;
    }
    var updated := UpdatedFlight(existing, dto);
    assert !ScheduleTaken(flights, updated.flightNumber, updated.departure, Some(7));
    assert UpdateRejection(flights, airlines, 7, dto).None?;
  }

  /** With the corrected time check, an accepted update stores an arrival strictly after its departure. */
  lemma StoredDatesKeepStrictTimes(existing: Flight, dto: FlightDto)
    requires ValidateStoredDates(dto.departure, dto.arrival).None?
    ensures UpdatedFlight(existing, dto).departure < UpdatedFlight(existing, dto).arrival
  {
  }

  /** updateFlight: the first failed check changes nothing; otherwise the flight becomes UpdatedFlight. */
  method UpdateFlight(ar: AirlineRepository, fr: FlightRepository, id: nat, dto: FlightDto) returns (r: Result<Flight>)
    requires fr.Valid()
    modifies fr
    ensures fr.Valid() && fr.nextId == old(fr.nextId)
    ensures var e := UpdateRejection(old(fr.flights), ar.airlines, id, dto);
      && (e.Some? ==> r == Err(e.value) && fr.flights == old(fr.flights))
      && (e.None? ==> r == Ok(UpdatedFlight(old(fr.flights)[id], dto)) && fr.flights == old(fr.flights)[id := r.value])
  {
    if id !in fr.flights {
      return Err(NotFound);
    }
    var existing := fr.flights[id];
    var capacityError := ValidateCapacityRange(dto.capacity);
    if capacityError.Some? {
      return Err(capacityError.value);
    }
    var datesError := ValidateDates(dto.departure, dto.arrival);
    if datesError.Some? {
      return Err(datesError.value);
    }
    if DuplicateOnDayAsWritten(fr.flights, dto.flightNumber, existing.airlineId, dto.origin, dto.departure.value, Some(id)) {
      return Err(FlightConflict(SameDayDuplicate));
    }
    if TimeConflict(fr.flights, dto.flightNumber, existing.airlineId, dto.departure.value, dto.arrival.value, Some(id)) {
      return Err(FlightConflict(TimeOverlap));
    }
    if IsNoChange(existing, dto) {
      return Err(BadRequest(NoChanges));
    }
    if existing.airlineId != dto.airlineId && dto.airlineId !in ar.airlines {
      return Err(NotFound);
    }
    var updated := UpdatedFlight(existing, dto);
    if ScheduleTaken(fr.flights, updated.flightNumber, updated.departure, Some(id)) {
      return Err(ConstraintViolation);
    }
    fr.Update(id, updated);
    r := Ok(updated);
  }

  // ---------------------------------------------------------------- delete

  /** Some booking, of any status, refers to the flight. */
  predicate HasAnyBooking(bookings: seq<Booking>, flightId: nat) {
    exists i :: 0 <= i < |bookings| && bookings[i].flightId == flightId
  }

  /** A flight without bookings can go without breaking the ledger or the catalogue. */
  lemma {:induction false} DeleteKeepsInvariants(flights: map<nat, Flight>, passengers: map<nat, Passenger>, bookings: seq<Booking>,
                                                 airlines: map<nat, Airline>, id: nat)
    requires Ledger(flights, passengers, bookings) && Catalogue(airlines, flights) && !HasAnyBooking(bookings, id)
    ensures Ledger(flights - {id}, passengers, bookings) && Catalogue(airlines, flights - {id})
  {
    forall i | 0 <= i < |bookings| ensures bookings[i].flightId in flights - {id} {
      assert bookings[i].flightId != id;
    }
  }

  /** deleteFlight: NotFound, then a refusal while any booking refers to it; otherwise only that flight goes. */
  method DeleteFlight(fr: FlightRepository, br: BookingRepository, id: nat) returns (r: Outcome)
    requires fr.Valid()
    modifies fr
    ensures fr.Valid() && fr.nextId == old(fr.nextId)
    ensures id !in old(fr.flights) ==> r == Fail(NotFound) && fr.flights == old(fr.flights)
    ensures id in old(fr.flights) && HasAnyBooking(br.bookings, id) ==> r == Fail(BadRequest(HasBookings)) && fr.flights == old(fr.flights)
    ensures id in old(fr.flights) && !HasAnyBooking(br.bookings, id) ==> r == Done && fr.flights == old(fr.flights) - {id}
  {
    if id !in fr.flights {
      return Fail(NotFound);
    }
    if HasAnyBooking(br.bookings, id) {
      return Fail(BadRequest(HasBookings));
    }
    fr.DeleteAll({id});
    r := Done;
  }
}
