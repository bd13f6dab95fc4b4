/**
 * AirlineServiceImpl: airlines with unique IATA and ICAO codes, and the
 * deletion of an airline together with its flights.
 */
module AirlineService {
  import opened Common
  import opened Store

  /** The AirlineDTO fields the service reads (bean validation makes them non-null). */
  datatype AirlineDto = AirlineDto(codeIATA: string, codeICAO: string, name: string, country: string, fleetSize: string)

  /** normalizeCodes: codes trimmed and upper-cased, the other fields trimmed. */
  function NormalizeCodes(dto: AirlineDto): (a: Airline)
    ensures a.codeIATA == ToUpper(Trim(dto.codeIATA)) && a.codeICAO == ToUpper(Trim(dto.codeICAO))
    ensures a.name == Trim(dto.name) && a.country == Trim(dto.country) && a.fleetSize == Trim(dto.fleetSize)
  {
    Airline(ToUpper(Trim(dto.codeIATA)), ToUpper(Trim(dto.codeICAO)), Trim(dto.name), Trim(dto.country), Trim(dto.fleetSize))
  }

  /** The DTO a client gets back for a stored airline. */
  function AsDto(a: Airline): AirlineDto {
    AirlineDto(a.codeIATA, a.codeICAO, a.name, a.country, a.fleetSize)
  }

  /** Normalising a normalised airline changes nothing: re-submitting what was stored is stable. */
  lemma {:induction false} NormalizeCodesIdempotent(dto: AirlineDto)
    ensures NormalizeCodes(AsDto(NormalizeCodes(dto))) == NormalizeCodes(dto)
  {
    UpperOfTrimmedIsTrimmed(dto.codeIATA);
    ToUpperIdempotent(Trim(dto.codeIATA));
    UpperOfTrimmedIsTrimmed(dto.codeICAO);
    ToUpperIdempotent(Trim(dto.codeICAO));
    TrimIdempotent(dto.name);
    TrimIdempotent(dto.country);
    TrimIdempotent(dto.fleetSize);
  }

  /** existsByCodeIATA / existsByCodeIATAAndIdNot: another airline stores this IATA code. */
  predicate IataTaken(airlines: map<nat, Airline>, code: string, excludeId: Option<nat>) {
    exists id :: id in airlines && excludeId != Some(id) && airlines[id].codeIATA == code
  }

  /** existsByCodeICAO / existsByCodeICAOAndIdNot: another airline stores this ICAO code. */
  predicate IcaoTaken(airlines: map<nat, Airline>, code: string, excludeId: Option<nat>) {
    exists id :: id in airlines && excludeId != Some(id) && airlines[id].codeICAO == code
  }

  /** validateUniqueCodes: the IATA code is checked before the ICAO code. */
  function CodesRejection(airlines: map<nat, Airline>, a: Airline, excludeId: Option<nat>): (e: Option<Error>)
    ensures e.None? <==> !IataTaken(airlines, a.codeIATA, excludeId) && !IcaoTaken(airlines, a.codeICAO, excludeId)
    ensures IataTaken(airlines, a.codeIATA, excludeId) ==> e == Some(BadRequest(IataExists))
    ensures !IataTaken(airlines, a.codeIATA, excludeId) && IcaoTaken(airlines, a.codeICAO, excludeId) ==> e == Some(BadRequest(IcaoExists))
  {
    if IataTaken(airlines, a.codeIATA, excludeId) then Some(BadRequest(IataExists))
    else if IcaoTaken(airlines, a.codeICAO, excludeId) then Some(BadRequest(IcaoExists))
    else None
  }

  /** Storing an airline under `id` whose codes no other airline holds keeps the codes unique. */
  lemma FreeCodesKeepUnique(airlines: map<nat, Airline>, id: nat, a: Airline)
    requires CodesUnique(airlines)
    requires !IataTaken(airlines, a.codeIATA, Some(id)) && !IcaoTaken(airlines, a.codeICAO, Some(id))
    ensures CodesUnique(airlines[id := a])
  {
    var u := airlines[id := a];
    forall x, y | x in u && y in u && x != y
      ensures u[x].codeIATA != u[y].codeIATA && u[x].codeICAO != u[y].codeICAO
    {
      if x == id {
        assert y in airlines && Some(id) != Some(y) && u[y] == airlines[y];
      } else if y == id {
        assert x in airlines && Some(id) != Some(x) && u[x] == airlines[x];
      }
    }
  }

  /** Storing an airline whose codes no other airline holds keeps the catalogue invariant. */
  lemma StoringFreeCodesKeepsCatalogue(airlines: map<nat, Airline>, flights: map<nat, Flight>, id: nat, a: Airline)
    requires Catalogue(airlines, flights)
    requires !IataTaken(airlines, a.codeIATA, Some(id)) && !IcaoTaken(airlines, a.codeICAO, Some(id))
    ensures Catalogue(airlines[id := a], flights)
  {
    FreeCodesKeepUnique(airlines, id, a);
  }

  /** createAirline: codes already in use are refused; otherwise the normalised airline is stored under a fresh id. */
  method CreateAirline(ar: AirlineRepository, dto: AirlineDto) returns (r: Result<nat>)
    requires ar.Valid()
    modifies ar
    ensures ar.Valid()
    ensures var e := CodesRejection(old(ar.airlines), NormalizeCodes(dto), None);
      && (e.Some? ==> r == Err(e.value) && ar.airlines == old(ar.airlines))
      && (e.None? ==> r.Ok? && r.value !in old(ar.airlines) && ar.airlines == old(ar.airlines)[r.value := NormalizeCodes(dto)])
    ensures CodesUnique(old(ar.airlines)) ==> CodesUnique(ar.airlines)
  {
    var a := NormalizeCodes(dto);
    var e := CodesRejection(ar.airlines, a, None);
    if e.Some? {
      return Err(e.value);
    }
    ghost var before := ar.airlines;
    var id := ar.Save(a);
    if CodesUnique(before) {
      FreeCodesKeepUnique(before, id, a);
    }
    r := Ok(id);
  }

  /** isNoChange: name, country and fleet size equal exactly, codes equal ignoring case. */
  predicate IsNoChange(existing: Airline, a: Airline) {
    existing.name == a.name && existing.country == a.country && existing.fleetSize == a.fleetSize &&
    EqualsIgnoreCase(existing.codeIATA, a.codeIATA) && EqualsIgnoreCase(existing.codeICAO, a.codeICAO)
  }

  /** For a stored airline (codes upper-case), "no change" means exactly that the update would store the same airline. */
  lemma {:induction false} NoChangeIsIdentity(existing: Airline, dto: AirlineDto)
    requires ToUpper(existing.codeIATA) == existing.codeIATA && ToUpper(existing.codeICAO) == existing.codeICAO
    ensures IsNoChange(existing, NormalizeCodes(dto)) <==> NormalizeCodes(dto) == existing
  {
    ToUpperIdempotent(Trim(dto.codeIATA));
    ToUpperIdempotent(Trim(dto.codeICAO));
  }

  /**
   * updateAirline: NotFound for an unknown id; codes another airline holds are
   * refused; an update with no changes is refused; otherwise the normalised
   * fields replace the stored ones.
   */
  method UpdateAirline(ar: AirlineRepository, id: nat, dto: AirlineDto) returns (r: Result<Airline>)
    requires ar.Valid()
    modifies ar
    ensures ar.Valid() && ar.nextId == old(ar.nextId)
    ensures r.Err? ==> ar.airlines == old(ar.airlines)
    ensures id !in old(ar.airlines) ==> r == Err(NotFound)
    ensures id in old(ar.airlines) ==>
      var a := NormalizeCodes(dto);
      var e := CodesRejection(old(ar.airlines), a, Some(id));
      if e.Some? then r == Err(e.value)
      else if IsNoChange(old(ar.airlines)[id], a) then r == Err(BadRequest(NoChanges))
      else r == Ok(a) && ar.airlines == old(ar.airlines)[id := a]
    ensures CodesUnique(old(ar.airlines)) ==> CodesUnique(ar.airlines)
  {
    if id !in ar.airlines {
      return Err(NotFound);
    }
    var existing := ar.airlines[id];
    var a := NormalizeCodes(dto);
    var e := CodesRejection(ar.airlines, a, Some(id));
    if e.Some? {
      return Err(e.value);
    }
    if IsNoChange(existing, a) {
      return Err(BadRequest(NoChanges));
    }
    if CodesUnique(ar.airlines) {
      FreeCodesKeepUnique(ar.airlines, id, a);
    }
    ar.Update(id, a);
    r := Ok(a);
  }

  /** findByAirlineId: the ids of the airline's flights. */
  function FlightsOf(flights: map<nat, Flight>, airlineId: nat): (ids: set<nat>)
    ensures forall fid :: fid in ids <==> fid in flights && flights[fid].airlineId == airlineId
  {
    set fid | fid in flights && flights[fid].airlineId == airlineId
  }

  /** existsByFlight_Airline_Id: some booking, of any status, is on one of the airline's flights. */
  predicate AirlineHasBookings(flights: map<nat, Flight>, bookings: seq<Booking>, airlineId: nat) {
    exists i :: 0 <= i < |bookings| && bookings[i].flightId in flights && flights[bookings[i].flightId].airlineId == airlineId
  }

  /**
   * Removing an airline without bookings together with its flights keeps both
   * invariants: no booking loses its flight and no flight loses its airline.
   */
  lemma {:induction false} DeleteKeepsInvariants(airlines: map<nat, Airline>, flights: map<nat, Flight>,
                                                 passengers: map<nat, Passenger>, bookings: seq<Booking>, id: nat)
    requires Ledger(flights, passengers, bookings) && Catalogue(airlines, flights)
    requires !AirlineHasBookings(flights, bookings, id)
    ensures Ledger(flights - FlightsOf(flights, id), passengers, bookings)
    ensures Catalogue(airlines - {id}, flights - FlightsOf(flights, id))
  {
    var rest := flights - FlightsOf(flights, id);
    forall i | 0 <= i < |bookings| ensures bookings[i].flightId in rest {
      assert bookings[i].flightId in flights;
      assert flights[bookings[i].flightId].airlineId != id;
    }
    forall fid | fid in rest ensures rest[fid].airlineId in airlines - {id} {
      assert flights[fid].airlineId != id;
    }
  }

  /**
   * deleteAirline: NotFound for an unknown id; refused while a booking is on
   * any of its flights; otherwise its flights and then the airline are removed.
   */
  method DeleteAirline(ar: AirlineRepository, fr: FlightRepository, br: BookingRepository, id: nat) returns (r: Outcome)
    requires ar.Valid() && fr.Valid()
    modifies ar, fr
    ensures ar.Valid() && fr.Valid()
    ensures id !in old(ar.airlines) ==> r == Fail(NotFound) && unchanged(ar, fr)
    ensures id in old(ar.airlines) && AirlineHasBookings(old(fr.flights), br.bookings, id) ==>
      r == Fail(BadRequest(HasBookings)) && unchanged(ar, fr)
    ensures id in old(ar.airlines) && !AirlineHasBookings(old(fr.flights), br.bookings, id) ==>
      r == Done && ar.airlines == old(ar.airlines) - {id} && fr.flights == old(fr.flights) - FlightsOf(old(fr.flights), id)
  {
    if id !in ar.airlines {
      return Fail(NotFound);
    }
    if AirlineHasBookings(fr.flights, br.bookings, id) {
      return Fail(BadRequest(HasBookings));
    }
    fr.DeleteAll(FlightsOf(fr.flights, id));
    ar.Delete(id);
    r := Done;
  }
}
