/**
 * BookingServiceImpl: the booking allocation engine. A booking is CONFIRMED
 * while the flight has free seats and WAITLISTED beyond that, up to the
 * overbooking limit; cancelling a CONFIRMED booking releases its seat and
 * promotes the earliest WAITLISTED booking; a nightly sweep cancels WAITLISTED
 * bookings of departed flights.
 *
 * Each operation is specified by a function on the three tables as values
 * (`Tables`); the methods change the repositories step by step, as the source
 * does, and are proved to reach exactly that value. The lemmas prove what the
 * operations promise about the tables: the ledger invariant, the seat counter
 * moving in step with the CONFIRMED bookings, and the status machine.
 */
module BookingService {
  import opened Common
  import opened Store
  import opened PriceCalculator
  import opened PassengerBookingMapper
  import PassengerService

  /** The authenticated caller: login e-mail, whether the user's role is ADMIN, whether it holds ROLE_USER. */
  datatype Caller = Caller(email: string, isAdmin: bool, isUser: bool)

  datatype BookingCreateRequest = BookingCreateRequest(flightId: nat, passengerId: Option<nat>, seatNumber: string)

  datatype BookingResponse = BookingResponse(bookingId: nat, status: BookingStatus, finalPrice: real, message: string)

  /** The flights, passengers and bookings tables, as values. */
  datatype Tables = Tables(flights: map<nat, Flight>, passengers: map<nat, Passenger>, bookings: seq<Booking>)

  ghost function Snapshot(fr: FlightRepository, pr: PassengerRepository, br: BookingRepository): Tables
    reads fr, pr, br
  {
    Tables(fr.flights, pr.passengers, br.bookings)
  }

  ghost predicate Consistent(t: Tables) {
    Ledger(t.flights, t.passengers, t.bookings)
  }

  // ---------------------------------------------------------------- status machine

  /** The status changes the engine makes: WAITLISTED to CONFIRMED, and anything but CANCELLED to CANCELLED. */
  predicate Transition(from: BookingStatus, to: BookingStatus) {
    from == to || (from == Waitlisted && to == Confirmed) || (from != Cancelled && to == Cancelled)
  }

  /**
   * `after` extends `before`: stored bookings keep everything but their
   * status, which moves along Transition.
   */
  ghost predicate Evolves(before: seq<Booking>, after: seq<Booking>) {
    && |before| <= |after|
    && (forall i :: 0 <= i < |before| ==>
          after[i] == before[i].(status := after[i].status) && Transition(before[i].status, after[i].status))
  }

  /** Transitions compose, so a CANCELLED booking stays CANCELLED through any run of operations. */
  lemma {:induction false} EvolvesTransitive(a: seq<Booking>, b: seq<Booking>, c: seq<Booking>)
    requires Evolves(a, b) && Evolves(b, c)
    ensures Evolves(a, c)
    ensures forall i :: 0 <= i < |a| && a[i].status == Cancelled ==> c[i].status == Cancelled
  {
    forall i | 0 <= i < |a|
      ensures c[i] == a[i].(status := c[i].status) && Transition(a[i].status, c[i].status)
    {
      assert b[i] == a[i].(status := b[i].status);
      assert c[i] == b[i].(status := c[i].status);
    }
  }

  /**
   * Each flight keeps its offset between the bookedSeats counter and its
   * number of CONFIRMED bookings (the offset is whatever the flight was
   * created with), and no flight appears or disappears.
   */
  ghost predicate SameOffsets(t: Tables, u: Tables) {
    t.flights.Keys == u.flights.Keys &&
    forall id :: id in t.flights ==>
      u.flights[id].bookedSeats - ConfirmedCount(u.bookings, id) == t.flights[id].bookedSeats - ConfirmedCount(t.bookings, id)
  }

  /** Only the stored bookings' statuses change, so the seat and passenger slots stay unique. */
  lemma {:induction false} SlotsUniqueAcrossStatusChanges(a: seq<Booking>, b: seq<Booking>)
    requires |a| == |b| && SlotsUnique(a)
    requires forall i :: 0 <= i < |a| ==> b[i] == a[i].(status := b[i].status)
    ensures SlotsUnique(b)
  {
    forall i, j | 0 <= i < j < |b| && b[i].flightId == b[j].flightId
      ensures b[i].passengerId != b[j].passengerId && !EqualsIgnoreCase(b[i].seatNumber, b[j].seatNumber)
    {
      assert b[i] == a[i].(status := b[i].status);
      assert b[j] == a[j].(status := b[j].status);
    }
  }

  // ---------------------------------------------------------------- pricing and admission

  /**
   * (int) Math.round(capacity * 1.10): 110 % of the capacity, halves rounded
   * up. For capacities of at most a few million the double product never
   * straddles a rounding boundary, so the exact integer form agrees.
   */
  function OverbookingLimit(capacity: int): (limit: int)
    ensures 10 * limit - 5 <= 11 * capacity < 10 * limit + 5
  {
    (11 * capacity + 5) / 10
  }

  /**
   * For a valid capacity the limit lies 5 to 40 seats beyond it, so the
   * overbooking rejection cannot fire while bookedSeats <= capacity.
   */
  lemma OverbookingUnreachable(bookedSeats: int, capacity: int)
    requires 50 <= capacity <= 400
    ensures capacity + 5 <= OverbookingLimit(capacity) <= capacity + 40
    ensures bookedSeats <= capacity ==> bookedSeats < OverbookingLimit(capacity)
  {
  }

  /** A booking is CONFIRMED while seats are free, WAITLISTED otherwise (bookedSeats at entry). */
  function InitialStatus(f: Flight): BookingStatus {
    if f.bookedSeats < f.capacity then Confirmed else Waitlisted
  }

  /** request.getSeatNumber().trim().toUpperCase(). */
  function NormalizeSeat(seatNumber: string): string {
    ToUpper(Trim(seatNumber))
  }

  /**
   * A normalised seat is its own normal form: nothing left to trim, and it
   * equals the trimmed request ignoring case.
   */
  lemma NormalizeSeatIsCanonical(seatNumber: string)
    ensures var seat := NormalizeSeat(seatNumber);
            Trim(seat) == seat && NormalizeSeat(seat) == seat && EqualsIgnoreCase(seat, Trim(seatNumber))
  {
    UpperOfTrimmedIsTrimmed(seatNumber);
    ToUpperIdempotent(Trim(seatNumber));
  }

  /**
   * calculateDynamicPrice: the occupancy tier price, less 10 % for a passenger
   * holding more than 1000 points.
   */
  function DynamicPrice(f: Flight, loyaltyPoints: int): (price: real)
    requires f.capacity > 0
    ensures f.basePrice >= 0.0 ==> 0.9 * f.basePrice <= price <= 1.5 * f.basePrice
  {
    var price := CalculatePrice(f.basePrice, Occupancy(f.bookedSeats, f.capacity));
    if loyaltyPoints > 1000 then price * 0.9 else price
  }

  /** The price tier in integer terms: up to half full, below 80 %, from 80 % on. */
  function TierFactor(bookedSeats: int, capacity: int): real {
    if 2 * bookedSeats <= capacity then 1.0
    else if 5 * bookedSeats < 4 * capacity then 1.2
    else 1.5
  }

  /** The price a booking locks in, in integer tier terms with the loyalty discount. */
  lemma {:induction false} DynamicPriceTiers(f: Flight, loyaltyPoints: int)
    requires f.capacity > 0
    ensures DynamicPrice(f, loyaltyPoints)
         == f.basePrice * TierFactor(f.bookedSeats, f.capacity) * (if loyaltyPoints > 1000 then 0.9 else 1.0)
  {
    PriceTiers(f.basePrice, f.bookedSeats, f.capacity);
  }

  /** A passenger with 1200 points booking a 1000.00 seat on a flight 60 % full pays 1080.00. */
  lemma DynamicPriceExample(f: Flight)
    requires f.basePrice == 1000.0 && f.bookedSeats == 60 && f.capacity == 100
    ensures DynamicPrice(f, 1200) == 1080.0
    ensures DynamicPrice(f, 1000) == 1200.0
  {
    DynamicPriceTiers(f, 1200);
    DynamicPriceTiers(f, 1000);
  }

  /** Some booking, of any status, holds this passenger on this flight. */
  predicate HasBookingFor(bookings: seq<Booking>, flightId: nat, passengerId: nat) {
    exists i :: 0 <= i < |bookings| && bookings[i].flightId == flightId && bookings[i].passengerId == passengerId
  }

  /** Some booking, of any status, holds this seat (ignoring case) on this flight. */
  predicate SeatTakenOn(bookings: seq<Booking>, flightId: nat, seat: string) {
    exists i :: 0 <= i < |bookings| && bookings[i].flightId == flightId && EqualsIgnoreCase(bookings[i].seatNumber, seat)
  }

  /**
   * validateBookingRules: the first rule the request breaks, in the order the
   * source checks them: departed flight, passenger already booked, seat taken.
   */
  function BookingRuleViolation(bookings: seq<Booking>, f: Flight, flightId: nat, passengerId: nat, seatNumber: string, now: int)
    : (why: Option<Reason>)
    ensures why == None <==>
      now <= f.departure && !HasBookingFor(bookings, flightId, passengerId) &&
      !SeatTakenOn(bookings, flightId, NormalizeSeat(seatNumber))
    ensures why.Some? ==> why.value in {Departed, PassengerAlreadyBooked, SeatTaken}
    ensures f.departure < now ==> why == Some(Departed)
    ensures now <= f.departure && HasBookingFor(bookings, flightId, passengerId) ==> why == Some(PassengerAlreadyBooked)
    ensures (now <= f.departure && !HasBookingFor(bookings, flightId, passengerId) &&
             SeatTakenOn(bookings, flightId, NormalizeSeat(seatNumber))) ==> why == Some(SeatTaken)
  {
    if f.departure < now then Some(Departed)
    else if HasBookingFor(bookings, flightId, passengerId) then Some(PassengerAlreadyBooked)
    else if SeatTakenOn(bookings, flightId, NormalizeSeat(seatNumber)) then Some(SeatTaken)
    else None
  }

  /**
   * resolvePassengerForBooking: an ADMIN naming a passenger books for that
   * passenger; everyone else books for the passenger holding their e-mail.
   */
  ghost predicate ResolvesTo(passengers: map<nat, Passenger>, caller: Caller, req: BookingCreateRequest, pid: nat) {
    pid in passengers &&
    if caller.isAdmin && req.passengerId.Some? then pid == req.passengerId.value
    else passengers[pid].email == caller.email
  }

  /** With unique e-mails at most one passenger resolves. */
  lemma ResolvesUniquely(passengers: map<nat, Passenger>, caller: Caller, req: BookingCreateRequest, p: nat, q: nat)
    requires EmailsUnique(passengers)
    requires ResolvesTo(passengers, caller, req, p) && ResolvesTo(passengers, caller, req, q)
    ensures p == q
  {
  }

  method ResolvePassengerForBooking(pr: PassengerRepository, caller: Caller, req: BookingCreateRequest) returns (r: Result<nat>)
    ensures r.Ok? ==> ResolvesTo(pr.passengers, caller, req, r.value)
    ensures r.Err? ==> r == Err(NotFound) && forall pid :: !ResolvesTo(pr.passengers, caller, req, pid)
  {
    if caller.isAdmin && req.passengerId.Some? {
      if req.passengerId.value in pr.passengers {
        return Ok(req.passengerId.value);
      }
      return Err(NotFound);
    }
    if pid :| pid in pr.passengers && pr.passengers[pid].email == caller.email {
      return Ok(pid);
    }
    return Err(NotFound);
  }

  // ---------------------------------------------------------------- creation

  /** The booking createBooking stores for passenger `pid` on flight `flightId` at `now`. */
  function NewBooking(t: Tables, flightId: nat, pid: nat, seatNumber: string, now: int): Booking
    requires flightId in t.flights && pid in t.passengers && t.flights[flightId].capacity > 0
  {
    var f := t.flights[flightId];
    Booking(flightId, pid, NormalizeSeat(seatNumber), InitialStatus(f), DynamicPrice(f, t.passengers[pid].loyaltyPoints), now)
  }

  /**
   * The tables after createBooking accepted the request: the booking is
   * appended, and only a CONFIRMED one takes a seat and earns its points
   * (handleConfirmedBooking).
   */
  function Booked(t: Tables, flightId: nat, pid: nat, seatNumber: string, now: int): (u: Tables)
    requires flightId in t.flights && pid in t.passengers && t.flights[flightId].capacity > 0
    ensures u.bookings == t.bookings + [NewBooking(t, flightId, pid, seatNumber, now)]
  {
    var b := NewBooking(t, flightId, pid, seatNumber, now);
    var f := t.flights[flightId];
    if b.status == Confirmed then
      Tables(t.flights[flightId := f.(bookedSeats := f.bookedSeats + 1)],
             PassengerService.Credited(t.passengers, pid, LoyaltyPoints(b.price)),
             t.bookings + [b])
    else
      t.(bookings := t.bookings + [b])
  }

  /**
   * What an accepted booking does: CONFIRMED exactly when bookedSeats was below
   * capacity, in which case bookedSeats rises by one and the passenger earns
   * truncate(price × 0.10) points, added as an `int` (a sum past MaxInt wraps
   * negative and is floored to 0); a WAITLISTED booking changes nothing else.
   * The seat is stored trimmed and upper-cased, the price is the tier price.
   */
  lemma {:induction false} BookingOutcome(t: Tables, flightId: nat, pid: nat, seatNumber: string, now: int)
    requires Consistent(t) && flightId in t.flights && pid in t.passengers
    ensures var f := t.flights[flightId];
            var u := Booked(t, flightId, pid, seatNumber, now);
            var b := u.bookings[|t.bookings|];
            var points := t.passengers[pid].loyaltyPoints;
            && b.seatNumber == ToUpper(Trim(seatNumber))
            && b.price == f.basePrice * TierFactor(f.bookedSeats, f.capacity) * (if points > 1000 then 0.9 else 1.0)
            && (b.status == Confirmed <==> f.bookedSeats < f.capacity)
            && (b.status == Waitlisted <==> f.capacity <= f.bookedSeats)
            && (b.status == Confirmed ==>
                  u.flights == t.flights[flightId := f.(bookedSeats := f.bookedSeats + 1)] &&
                  (points + LoyaltyPoints(b.price) <= MaxInt ==>
                     u.passengers[pid].loyaltyPoints == points + LoyaltyPoints(b.price)) &&
                  (MaxInt < points + LoyaltyPoints(b.price) < 0x1_0000_0000 ==>
                     u.passengers[pid].loyaltyPoints == 0) &&
                  u.passengers[pid] == t.passengers[pid].(loyaltyPoints := u.passengers[pid].loyaltyPoints) &&
                  (forall other :: other in t.passengers && other != pid ==> u.passengers[other] == t.passengers[other]))
            && (b.status == Waitlisted ==> u.flights == t.flights && u.passengers == t.passengers)
  {
    var f := t.flights[flightId];
    assert FlightValid(f) && t.passengers[pid].loyaltyPoints >= 0;
    var b := NewBooking(t, flightId, pid, seatNumber, now);
    assert Booked(t, flightId, pid, seatNumber, now).bookings[|t.bookings|] == b;
    DynamicPriceTiers(f, t.passengers[pid].loyaltyPoints);
    BookedEffects(t, flightId, pid, seatNumber, now);
  }

  /**
   * The effects half of BookingOutcome: a CONFIRMED booking takes a seat and
   * its points are added to the balance as an `int`; a WAITLISTED one
   * changes neither flights nor passengers.
   */
  lemma {:induction false} BookedEffects(t: Tables, flightId: nat, pid: nat, seatNumber: string, now: int)
    requires flightId in t.flights && pid in t.passengers && t.flights[flightId].capacity > 0
    requires t.flights[flightId].basePrice > 0.0 && t.passengers[pid].loyaltyPoints >= 0
    ensures var f := t.flights[flightId];
            var b := NewBooking(t, flightId, pid, seatNumber, now);
            var u := Booked(t, flightId, pid, seatNumber, now);
            var points := t.passengers[pid].loyaltyPoints;
            && (b.status == Confirmed ==>
                  u.flights == t.flights[flightId := f.(bookedSeats := f.bookedSeats + 1)] &&
                  (points + LoyaltyPoints(b.price) <= MaxInt ==>
                     u.passengers[pid].loyaltyPoints == points + LoyaltyPoints(b.price)) &&
                  (MaxInt < points + LoyaltyPoints(b.price) < 0x1_0000_0000 ==>
                     u.passengers[pid].loyaltyPoints == 0) &&
                  u.passengers[pid] == t.passengers[pid].(loyaltyPoints := u.passengers[pid].loyaltyPoints) &&
                  (forall other :: other in t.passengers && other != pid ==> u.passengers[other] == t.passengers[other]))
            && (b.status == Waitlisted ==> u.flights == t.flights && u.passengers == t.passengers)
  {
    var f := t.flights[flightId];
    var b := NewBooking(t, flightId, pid, seatNumber, now);
    if b.status == Confirmed {
      var points := t.passengers[pid].loyaltyPoints;
      DynamicPriceTiers(f, points);
      var tier := f.basePrice * TierFactor(f.bookedSeats, f.capacity);
      assert tier > 0.0;
      assert b.price == tier * (if points > 1000 then 0.9 else 1.0);
      PassengerService.CreditedBalance(t.passengers, pid, LoyaltyPoints(b.price));
    }
  }

  /** A booking clashing with no stored booking of its flight keeps the slots unique. */
  lemma {:induction false} AppendKeepsSlotsUnique(bookings: seq<Booking>, b: Booking)
    requires SlotsUnique(bookings)
    requires !HasBookingFor(bookings, b.flightId, b.passengerId) && !SeatTakenOn(bookings, b.flightId, b.seatNumber)
    ensures SlotsUnique(bookings + [b])
  {
    var u := bookings + [b];
    forall i, j | 0 <= i < j < |u| && u[i].flightId == u[j].flightId
      ensures u[i].passengerId != u[j].passengerId && !EqualsIgnoreCase(u[i].seatNumber, u[j].seatNumber)
    {
      assert u[i] == bookings[i];
      if j < |bookings| {
        assert u[j] == bookings[j];
      }
    }
  }

  /** An accepted booking keeps the ledger invariant, every flight's offset, and the status machine. */
  lemma {:induction false} BookedKeepsLedger(t: Tables, flightId: nat, pid: nat, seatNumber: string, now: int)
    requires Consistent(t) && flightId in t.flights && pid in t.passengers
    requires BookingRuleViolation(t.bookings, t.flights[flightId], flightId, pid, seatNumber, now) == None
    ensures var u := Booked(t, flightId, pid, seatNumber, now);
            Consistent(u) && SameOffsets(t, u) && Evolves(t.bookings, u.bookings)
  {
    var u := Booked(t, flightId, pid, seatNumber, now);
    var b := NewBooking(t, flightId, pid, seatNumber, now);
    assert FlightValid(t.flights[flightId]);
    AppendKeepsSlotsUnique(t.bookings, b);
    BookedKeepsEntities(t, flightId, pid, seatNumber, now);
    BookedKeepsCounts(t, flightId, pid, seatNumber, now);
    assert Ledger(u.flights, u.passengers, u.bookings);
  }

  /**
   * The counting half of BookedKeepsLedger: counters still cover the CONFIRMED
   * bookings, every booking still refers to a stored flight and passenger, and
   * each flight's offset is kept.
   */
  lemma {:induction false} BookedKeepsCounts(t: Tables, flightId: nat, pid: nat, seatNumber: string, now: int)
    requires flightId in t.flights && pid in t.passengers && t.flights[flightId].capacity > 0
    requires forall id :: id in t.flights ==> FlightValid(t.flights[id]) && ConfirmedCount(t.bookings, id) <= t.flights[id].bookedSeats
    requires forall i :: 0 <= i < |t.bookings| ==> t.bookings[i].flightId in t.flights && t.bookings[i].passengerId in t.passengers
    requires EmailsUnique(t.passengers) && forall p :: p in t.passengers ==> t.passengers[p].loyaltyPoints >= 0
    ensures var u := Booked(t, flightId, pid, seatNumber, now);
            && (forall id :: id in u.flights ==> FlightValid(u.flights[id]) && ConfirmedCount(u.bookings, id) <= u.flights[id].bookedSeats)
            && (forall i :: 0 <= i < |u.bookings| ==> u.bookings[i].flightId in u.flights && u.bookings[i].passengerId in u.passengers)
            && SameOffsets(t, u)
  {
    var u := Booked(t, flightId, pid, seatNumber, now);
    var b := NewBooking(t, flightId, pid, seatNumber, now);
    forall id | id in t.flights
      ensures ConfirmedCount(u.bookings, id) == ConfirmedCount(t.bookings, id) + (if IsConfirmedOn(b, id) then 1 else 0)
    {
      ConfirmedCountAppend(t.bookings, b, id);
    }
    BookedKeepsEntities(t, flightId, pid, seatNumber, now);
    assert u.bookings == t.bookings + [b];
  }

  /**
   * An accepted booking keeps both key sets, every flight valid, e-mails
   * unique and balances non-negative; a flight's counter rises by one exactly
   * when the new booking is a CONFIRMED one on it.
   */
  lemma {:induction false} BookedKeepsEntities(t: Tables, flightId: nat, pid: nat, seatNumber: string, now: int)
    requires flightId in t.flights && pid in t.passengers && t.flights[flightId].capacity > 0
    requires forall id :: id in t.flights ==> FlightValid(t.flights[id])
    requires EmailsUnique(t.passengers) && forall p :: p in t.passengers ==> t.passengers[p].loyaltyPoints >= 0
    ensures var u := Booked(t, flightId, pid, seatNumber, now);
            var b := NewBooking(t, flightId, pid, seatNumber, now);
            && u.flights.Keys == t.flights.Keys && u.passengers.Keys == t.passengers.Keys
            && (forall id :: id in u.flights ==> FlightValid(u.flights[id]))
            && (forall id :: id in t.flights ==>
                  u.flights[id].bookedSeats == t.flights[id].bookedSeats + (if IsConfirmedOn(b, id) then 1 else 0))
            && EmailsUnique(u.passengers) && (forall p :: p in u.passengers ==> u.passengers[p].loyaltyPoints >= 0)
  {
    var u := Booked(t, flightId, pid, seatNumber, now);
    var b := NewBooking(t, flightId, pid, seatNumber, now);
    var f := t.flights[flightId];
    if b.status == Confirmed {
      assert u.passengers == PassengerService.Credited(t.passengers, pid, LoyaltyPoints(b.price));
      PassengerService.CreditedKeepsPassengers(t.passengers, pid, LoyaltyPoints(b.price));
      assert u.flights == t.flights[flightId := f.(bookedSeats := f.bookedSeats + 1)];
    } else {
      assert u == t.(bookings := t.bookings + [b]);
    }
  }

  /** "Booking created successfully with status: " followed by the enum constant's name. */
  function CreatedMessage(status: BookingStatus): string {
    "Booking created successfully with status: " +
    match status
    case Confirmed => "CONFIRMED"
    case Waitlisted => "WAITLISTED"
    case Cancelled => "CANCELLED"
  }

  /** handleConfirmedBooking: one more seat counted, the passenger credited the booking's points. */
  method HandleConfirmedBooking(fr: FlightRepository, pr: PassengerRepository, flightId: nat, pid: nat, price: real)
    requires fr.Valid() && pr.Valid() && flightId in fr.flights && pid in pr.passengers
    modifies fr, pr
    ensures fr.Valid() && pr.Valid() && fr.nextId == old(fr.nextId) && pr.nextId == old(pr.nextId)
    ensures fr.flights == old(fr.flights)[flightId := old(fr.flights)[flightId].(bookedSeats := old(fr.flights)[flightId].bookedSeats + 1)]
    ensures pr.passengers == PassengerService.Credited(old(pr.passengers), pid, LoyaltyPoints(price))
  {
    var f := fr.flights[flightId];
    fr.Update(flightId, f.(bookedSeats := f.bookedSeats + 1));
    var credited := PassengerService.UpdateLoyaltyPoints(pr, pid, LoyaltyPoints(price));
  }

  /**
   * What createBooking decides once flight and passenger are known: the first
   * broken booking rule (BadRequest), then the overbooking limit; None accepts.
   */
  function Verdict(t: Tables, flightId: nat, pid: nat, seatNumber: string, now: int): (e: Option<Error>)
    requires flightId in t.flights
    ensures e.None? <==>
      BookingRuleViolation(t.bookings, t.flights[flightId], flightId, pid, seatNumber, now).None? &&
      t.flights[flightId].bookedSeats < OverbookingLimit(t.flights[flightId].capacity)
  {
    var f := t.flights[flightId];
    var why := BookingRuleViolation(t.bookings, f, flightId, pid, seatNumber, now);
    if why.Some? then Some(BadRequest(why.value))
    else if f.bookedSeats >= OverbookingLimit(f.capacity) then Some(Overbooking)
    else None
  }

  /** The response to an accepted request: the new booking's id (its index), status, price and message. */
  function Response(t: Tables, flightId: nat, pid: nat, seatNumber: string, now: int): BookingResponse
    requires flightId in t.flights && pid in t.passengers && t.flights[flightId].capacity > 0
  {
    var b := NewBooking(t, flightId, pid, seatNumber, now);
    BookingResponse(|t.bookings|, b.status, b.price, CreatedMessage(b.status))
  }

  /**
   * The part of createBooking after flight and passenger are found: Verdict's
   * error changes nothing; otherwise the booking is saved, a CONFIRMED one is
   * handled by handleConfirmedBooking, and the tables end as Booked.
   */
  method BookResolvedPassenger(fr: FlightRepository, pr: PassengerRepository, br: BookingRepository,
                               flightId: nat, pid: nat, seatNumber: string, now: int)
    returns (r: Result<BookingResponse>)
    requires fr.Valid() && pr.Valid() && Ledger(fr.flights, pr.passengers, br.bookings)
    requires flightId in fr.flights && pid in pr.passengers
    modifies fr, pr, br
    ensures fr.Valid() && pr.Valid() && fr.nextId == old(fr.nextId) && pr.nextId == old(pr.nextId)
    ensures var e := Verdict(old(Snapshot(fr, pr, br)), flightId, pid, seatNumber, now);
      && (e.Some? ==> r == Err(e.value) && Snapshot(fr, pr, br) == old(Snapshot(fr, pr, br)))
      && (e.None? ==>
            && r == Ok(Response(old(Snapshot(fr, pr, br)), flightId, pid, seatNumber, now))
            && Snapshot(fr, pr, br) == Booked(old(Snapshot(fr, pr, br)), flightId, pid, seatNumber, now))
  {
    ghost var t := Snapshot(fr, pr, br);
    var f := fr.flights[flightId];
    var why := BookingRuleViolation(br.bookings, f, flightId, pid, seatNumber, now);
    if why.Some? {
      return Err(BadRequest(why.value));
    }
    var price := DynamicPrice(f, pr.passengers[pid].loyaltyPoints);
    if f.bookedSeats >= OverbookingLimit(f.capacity) {
      return Err(Overbooking);
    }
    var status := InitialStatus(f);
    var b := Booking(flightId, pid, NormalizeSeat(seatNumber), status, price, now);
    var id := br.Save(b);
    if status == Confirmed {
      HandleConfirmedBooking(fr, pr, flightId, pid, price);
    }
    r := Ok(BookingResponse(id, status, price, CreatedMessage(status)));
  }

  /**
   * createBooking. Rejections, in order and before any change: unknown flight
   * (NotFound), no passenger to book for (NotFound), then Verdict's error. An
   * accepted request leaves the tables as Booked describes and returns the new
   * booking's id, status and price.
   */
  method CreateBooking(fr: FlightRepository, pr: PassengerRepository, br: BookingRepository,
                       caller: Caller, req: BookingCreateRequest, now: int)
    returns (r: Result<BookingResponse>)
    requires fr.Valid() && pr.Valid() && Ledger(fr.flights, pr.passengers, br.bookings)
    modifies fr, pr, br
    ensures fr.Valid() && pr.Valid() && Ledger(fr.flights, pr.passengers, br.bookings)
    ensures fr.nextId == old(fr.nextId) && pr.nextId == old(pr.nextId)
    ensures r.Err? ==> Snapshot(fr, pr, br) == old(Snapshot(fr, pr, br))
    ensures req.flightId !in old(fr.flights) ==> r == Err(NotFound)
    ensures req.flightId in old(fr.flights) && (forall pid :: !ResolvesTo(old(pr.passengers), caller, req, pid)) ==>
      r == Err(NotFound)
    ensures forall pid | req.flightId in old(fr.flights) && ResolvesTo(old(pr.passengers), caller, req, pid) ::
      var e := Verdict(old(Snapshot(fr, pr, br)), req.flightId, pid, req.seatNumber, now);
      && (e.Some? ==> r == Err(e.value))
      && (e.None? ==>
            && r == Ok(Response(old(Snapshot(fr, pr, br)), req.flightId, pid, req.seatNumber, now))
            && Snapshot(fr, pr, br) == Booked(old(Snapshot(fr, pr, br)), req.flightId, pid, req.seatNumber, now))
    ensures r.Ok? ==> SameOffsets(old(Snapshot(fr, pr, br)), Snapshot(fr, pr, br))
    ensures Evolves(old(br.bookings), br.bookings)
  {
    ghost var t := Snapshot(fr, pr, br);
    if req.flightId !in fr.flights {
      return Err(NotFound);
    }
    var resolved := ResolvePassengerForBooking(pr, caller, req);
    if resolved.Err? {
      return Err(resolved.error);
    }
    var pid := resolved.value;
    forall q | ResolvesTo(pr.passengers, caller, req, q) ensures q == pid {
      ResolvesUniquely(pr.passengers, caller, req, pid, q);
    }
    r := BookResolvedPassenger(fr, pr, br, req.flightId, pid, req.seatNumber, now);
    if r.Ok? {
      BookedKeepsLedger(t, req.flightId, pid, req.seatNumber, now);
    }
  }

  // ---------------------------------------------------------------- promotion

  predicate IsWaitlistedOn(b: Booking, flightId: nat) {
    b.flightId == flightId && b.status == Waitlisted
  }

  /**
   * The booking promoteWaitlistedToConfirmed picks: among the flight's
   * WAITLISTED bookings, the earliest createDate; the stable sort keeps the
   * lowest booking id first among equal dates.
   */
  function FirstWaitlisted(bookings: seq<Booking>, flightId: nat): (k: Option<nat>)
    ensures k.None? <==> forall i :: 0 <= i < |bookings| ==> !IsWaitlistedOn(bookings[i], flightId)
    ensures k.Some? ==>
      && k.value < |bookings| && IsWaitlistedOn(bookings[k.value], flightId)
      && forall i :: 0 <= i < |bookings| && IsWaitlistedOn(bookings[i], flightId) ==>
           bookings[k.value].createDate < bookings[i].createDate ||
           (bookings[k.value].createDate == bookings[i].createDate && k.value <= i)
  {
    if bookings == [] then None
    else
      var n := |bookings| - 1;
      var k := FirstWaitlisted(bookings[..n], flightId);
      if IsWaitlistedOn(bookings[n], flightId) && (k.None? || bookings[n].createDate < bookings[k.value].createDate) then Some(n)
      else k
  }

  /** Changing a booking that is not WAITLISTED on the flight, into another such booking, does not change the pick. */
  lemma {:induction false} FirstWaitlistedIgnoresOthers(bookings: seq<Booking>, i: nat, b: Booking, flightId: nat)
    requires i < |bookings| && !IsWaitlistedOn(bookings[i], flightId) && !IsWaitlistedOn(b, flightId)
    ensures FirstWaitlisted(bookings[i := b], flightId) == FirstWaitlisted(bookings, flightId)
  {
    var n := |bookings| - 1;
    if i == n {
      assert bookings[i := b][..n] == bookings[..n];
    } else {
      FirstWaitlistedIgnoresOthers(bookings[..n], i, b, flightId);
      assert bookings[i := b][..n] == bookings[..n][i := b];
    }
  }

  /**
   * promoteWaitlistedToConfirmed: if the flight has a WAITLISTED booking and
   * bookedSeats is below the overbooking limit, the first one becomes
   * CONFIRMED, bookedSeats rises by one and its passenger earns the booking's
   * points; otherwise nothing changes.
   */
  function Promotion(t: Tables, flightId: nat): (u: Tables)
    requires flightId in t.flights
    requires forall i :: 0 <= i < |t.bookings| ==> t.bookings[i].passengerId in t.passengers
  {
    var f := t.flights[flightId];
    var k := FirstWaitlisted(t.bookings, flightId);
    if k.Some? && f.bookedSeats < OverbookingLimit(f.capacity) then
      var next := t.bookings[k.value];
      Tables(t.flights[flightId := f.(bookedSeats := f.bookedSeats + 1)],
             PassengerService.Credited(t.passengers, next.passengerId, LoyaltyPoints(next.price)),
             t.bookings[k.value := next.(status := Confirmed)])
    else t
  }

  /** A promotion credits the promoted booking's passenger its points and touches no other passenger. */
  lemma {:induction false} PromotionCreditsOnePassenger(t: Tables, flightId: nat)
    requires flightId in t.flights
    requires forall i :: 0 <= i < |t.bookings| ==> t.bookings[i].passengerId in t.passengers
    ensures var u := Promotion(t, flightId);
            var f := t.flights[flightId];
            var k := FirstWaitlisted(t.bookings, flightId);
            && u.passengers.Keys == t.passengers.Keys
            && (k.Some? && f.bookedSeats < OverbookingLimit(f.capacity) ==>
                  var next := t.bookings[k.value];
                  && u.passengers[next.passengerId].loyaltyPoints
                     == PassengerService.NormalizePoints(AddInt(t.passengers[next.passengerId].loyaltyPoints, LoyaltyPoints(next.price)))
                  && u.passengers[next.passengerId] == t.passengers[next.passengerId].(loyaltyPoints := u.passengers[next.passengerId].loyaltyPoints)
                  && forall p :: p in t.passengers && p != next.passengerId ==> u.passengers[p] == t.passengers[p])
  {
    var f := t.flights[flightId];
    var k := FirstWaitlisted(t.bookings, flightId);
    if k.Some? && f.bookedSeats < OverbookingLimit(f.capacity) {
      var next := t.bookings[k.value];
      var credited := PassengerService.Credited(t.passengers, next.passengerId, LoyaltyPoints(next.price));
      assert Promotion(t, flightId).passengers == credited;
      assert credited[next.passengerId].loyaltyPoints
             == PassengerService.NormalizePoints(AddInt(t.passengers[next.passengerId].loyaltyPoints, LoyaltyPoints(next.price)));
    }
  }

  /**
   * Promotion changes at most one booking, the first WAITLISTED one of the
   * flight, and does so exactly when there is one and the limit allows it;
   * then the flight's counter rises by one and that booking's passenger, and
   * no other, is credited the booking's points. Other flights never change.
   */
  lemma PromotionChangesAtMostOne(t: Tables, flightId: nat)
    requires flightId in t.flights
    requires forall i :: 0 <= i < |t.bookings| ==> t.bookings[i].passengerId in t.passengers
    ensures var u := Promotion(t, flightId);
            var f := t.flights[flightId];
            var k := FirstWaitlisted(t.bookings, flightId);
            && |u.bookings| == |t.bookings|
            && (forall i :: 0 <= i < |t.bookings| && u.bookings[i] != t.bookings[i] ==>
                  k == Some(i) && u.bookings[i] == t.bookings[i].(status := Confirmed))
            && (u != t <==> k.Some? && f.bookedSeats < OverbookingLimit(f.capacity))
            && u.flights.Keys == t.flights.Keys && u.passengers.Keys == t.passengers.Keys
            && (forall fid :: fid in t.flights && fid != flightId ==> u.flights[fid] == t.flights[fid])
            && (u != t ==> u.flights[flightId] == f.(bookedSeats := f.bookedSeats + 1))
            && (u != t ==>
                  var next := t.bookings[k.value];
                  && u.passengers[next.passengerId].loyaltyPoints
                     == PassengerService.NormalizePoints(AddInt(t.passengers[next.passengerId].loyaltyPoints, LoyaltyPoints(next.price)))
                  && u.passengers[next.passengerId] == t.passengers[next.passengerId].(loyaltyPoints := u.passengers[next.passengerId].loyaltyPoints)
                  && forall p :: p in t.passengers && p != next.passengerId ==> u.passengers[p] == t.passengers[p])
  {
    var u := Promotion(t, flightId);
    var f := t.flights[flightId];
    var k := FirstWaitlisted(t.bookings, flightId);
    PromotionCreditsOnePassenger(t, flightId);
    if k.Some? && f.bookedSeats < OverbookingLimit(f.capacity) {
      assert u.bookings[k.value].status != t.bookings[k.value].status;
    } else {
      assert u == t;
    }
  }

  /** Promotion moves the counter and the CONFIRMED count of the flight together, so every offset is kept. */
  lemma {:induction false} PromotionKeepsOffsets(t: Tables, flightId: nat)
    requires Consistent(t) && flightId in t.flights
    ensures var u := Promotion(t, flightId);
            && SameOffsets(t, u)
            && forall id :: id in u.flights ==> ConfirmedCount(u.bookings, id) <= u.flights[id].bookedSeats
  {
    var u := Promotion(t, flightId);
    var f := t.flights[flightId];
    var k := FirstWaitlisted(t.bookings, flightId);
    if k.Some? && f.bookedSeats < OverbookingLimit(f.capacity) {
      var next := t.bookings[k.value];
      forall id | id in t.flights
        ensures ConfirmedCount(u.bookings, id) == ConfirmedCount(t.bookings, id) + (if id == flightId then 1 else 0)
      {
        ConfirmedCountUpdate(t.bookings, k.value, next.(status := Confirmed), id);
      }
    }
  }

  /** Promotion only moves one booking from WAITLISTED to CONFIRMED, and keeps the slots unique. */
  lemma {:induction false} PromotionEvolves(t: Tables, flightId: nat)
    requires Consistent(t) && flightId in t.flights
    ensures var u := Promotion(t, flightId);
            && Evolves(t.bookings, u.bookings) && |u.bookings| == |t.bookings| && SlotsUnique(u.bookings)
            && forall i :: 0 <= i < |u.bookings| ==> u.bookings[i] == t.bookings[i].(status := u.bookings[i].status)
  {
    var u := Promotion(t, flightId);
    var f := t.flights[flightId];
    var k := FirstWaitlisted(t.bookings, flightId);
    if k.Some? && f.bookedSeats < OverbookingLimit(f.capacity) {
      SlotsUniqueAcrossStatusChanges(t.bookings, u.bookings);
    }
  }

  /** Promotion keeps the ledger invariant, every flight's offset, and the status machine. */
  lemma {:induction false} PromotionKeepsLedger(t: Tables, flightId: nat)
    requires Consistent(t) && flightId in t.flights
    ensures var u := Promotion(t, flightId);
            Consistent(u) && SameOffsets(t, u) && Evolves(t.bookings, u.bookings)
            && u.flights[flightId].bookedSeats <= if t.flights[flightId].bookedSeats < OverbookingLimit(t.flights[flightId].capacity)
                                                 then OverbookingLimit(t.flights[flightId].capacity)
                                                 else t.flights[flightId].bookedSeats
  {
    var u := Promotion(t, flightId);
    PromotionKeepsOffsets(t, flightId);
    PromotionEvolves(t, flightId);
    PromotionKeepsEntities(t, flightId);
    assert forall i :: 0 <= i < |u.bookings| ==> u.bookings[i].flightId in u.flights && u.bookings[i].passengerId in u.passengers;
    assert forall id :: id in u.flights ==> FlightValid(u.flights[id]) && ConfirmedCount(u.bookings, id) <= u.flights[id].bookedSeats;
    assert Ledger(u.flights, u.passengers, u.bookings);
  }

  /**
   * Promotion keeps both key sets, every flight valid, e-mails unique and
   * balances non-negative, and raises the counter to at most the limit.
   */
  lemma {:induction false} PromotionKeepsEntities(t: Tables, flightId: nat)
    requires flightId in t.flights && forall id :: id in t.flights ==> FlightValid(t.flights[id])
    requires forall i :: 0 <= i < |t.bookings| ==> t.bookings[i].passengerId in t.passengers
    requires EmailsUnique(t.passengers) && forall p :: p in t.passengers ==> t.passengers[p].loyaltyPoints >= 0
    ensures var u := Promotion(t, flightId);
            && u.flights.Keys == t.flights.Keys && u.passengers.Keys == t.passengers.Keys
            && (forall id :: id in u.flights ==> FlightValid(u.flights[id]))
            && EmailsUnique(u.passengers) && (forall p :: p in u.passengers ==> u.passengers[p].loyaltyPoints >= 0)
            && u.flights[flightId].bookedSeats <= if t.flights[flightId].bookedSeats < OverbookingLimit(t.flights[flightId].capacity)
                                                 then OverbookingLimit(t.flights[flightId].capacity)
                                                 else t.flights[flightId].bookedSeats
  {
    var u := Promotion(t, flightId);
    var f := t.flights[flightId];
    var k := FirstWaitlisted(t.bookings, flightId);
    if k.Some? && f.bookedSeats < OverbookingLimit(f.capacity) {
      var next := t.bookings[k.value];
      assert u.passengers == PassengerService.Credited(t.passengers, next.passengerId, LoyaltyPoints(next.price));
      PassengerService.CreditedKeepsPassengers(t.passengers, next.passengerId, LoyaltyPoints(next.price));
      assert u.flights == t.flights[flightId := f.(bookedSeats := f.bookedSeats + 1)];
    } else {
      assert u == t;
    }
  }

  /** promoteWaitlistedToConfirmed, changing the repositories in the order the source does. */
  method PromoteWaitlistedToConfirmed(fr: FlightRepository, pr: PassengerRepository, br: BookingRepository, flightId: nat)
    requires fr.Valid() && pr.Valid() && flightId in fr.flights
    requires forall i :: 0 <= i < |br.bookings| ==> br.bookings[i].passengerId in pr.passengers
    modifies fr, pr, br
    ensures fr.Valid() && pr.Valid() && fr.nextId == old(fr.nextId) && pr.nextId == old(pr.nextId)
    ensures Snapshot(fr, pr, br) == Promotion(old(Snapshot(fr, pr, br)), flightId)
  {
    var f := fr.flights[flightId];
    var k := FirstWaitlisted(br.bookings, flightId);
    if k.Some? && f.bookedSeats < OverbookingLimit(f.capacity) {
      var next := br.bookings[k.value];
      br.Update(k.value, next.(status := Confirmed));
      fr.Update(flightId, f.(bookedSeats := f.bookedSeats + 1));
      var credited := PassengerService.UpdateLoyaltyPoints(pr, next.passengerId, LoyaltyPoints(next.price));
    }
  }

  // ---------------------------------------------------------------- cancellation

  /** cancelBooking's status change: the booking becomes CANCELLED. */
  function Marked(t: Tables, bookingId: nat): (u: Tables)
    requires bookingId < |t.bookings|
  {
    t.(bookings := t.bookings[bookingId := t.bookings[bookingId].(status := Cancelled)])
  }

  /**
   * The first half of handleConfirmedCancellation: the passenger loses the
   * booking's points and bookedSeats falls by one if it is positive.
   */
  function Released(t: Tables, bookingId: nat): (u: Tables)
    requires bookingId < |t.bookings| && t.bookings[bookingId].flightId in t.flights
    requires t.bookings[bookingId].passengerId in t.passengers
  {
    var b := t.bookings[bookingId];
    var f := t.flights[b.flightId];
    Tables(
      if f.bookedSeats > 0 then t.flights[b.flightId := f.(bookedSeats := f.bookedSeats - 1)] else t.flights,
      PassengerService.Credited(t.passengers, b.passengerId, -LoyaltyPoints(b.price)),
      t.bookings)
  }

  /** handleConfirmedCancellation: release the seat and the points, then promote on the flight. */
  function ConfirmedCancellation(t: Tables, bookingId: nat): (u: Tables)
    requires bookingId < |t.bookings| && t.bookings[bookingId].flightId in t.flights
    requires forall i :: 0 <= i < |t.bookings| ==> t.bookings[i].passengerId in t.passengers
  {
    Promotion(Released(t, bookingId), t.bookings[bookingId].flightId)
  }

  /**
   * The tables after cancelBooking accepted: the booking becomes CANCELLED; a
   * CONFIRMED one also goes through handleConfirmedCancellation, a WAITLISTED
   * one changes nothing else.
   */
  function Cancellation(t: Tables, bookingId: nat): (u: Tables)
    requires bookingId < |t.bookings| && t.bookings[bookingId].flightId in t.flights
    requires forall i :: 0 <= i < |t.bookings| ==> t.bookings[i].passengerId in t.passengers
  {
    if t.bookings[bookingId].status == Confirmed then ConfirmedCancellation(Marked(t, bookingId), bookingId)
    else Marked(t, bookingId)
  }

  /**
   * What handleConfirmedCancellation does, in terms of the tables it starts
   * from: the booking's passenger loses the booking's points; the flight's
   * counter falls by one if positive; then, when the flight has a WAITLISTED
   * booking and the lowered counter is under the limit, that booking is
   * CONFIRMED, the counter rises again and its passenger earns its points.
   * No other flight, passenger or booking changes.
   */
  lemma {:induction false} ConfirmedCancellationEffects(t: Tables, bookingId: nat)
    requires bookingId < |t.bookings| && t.bookings[bookingId].flightId in t.flights
    requires forall i :: 0 <= i < |t.bookings| ==> t.bookings[i].passengerId in t.passengers
    ensures var u := ConfirmedCancellation(t, bookingId);
            var b := t.bookings[bookingId];
            var f := t.flights[b.flightId];
            var released := if f.bookedSeats > 0 then f.bookedSeats - 1 else f.bookedSeats;
            var clawedBack := PassengerService.Credited(t.passengers, b.passengerId, -LoyaltyPoints(b.price));
            var k := FirstWaitlisted(t.bookings, b.flightId);
            var promoted := k.Some? && released < OverbookingLimit(f.capacity);
            && u.flights.Keys == t.flights.Keys
            && (forall fid :: fid in t.flights && fid != b.flightId ==> u.flights[fid] == t.flights[fid])
            && u.flights[b.flightId] == f.(bookedSeats := if promoted then released + 1 else released)
            && (!promoted ==> u.passengers == clawedBack && u.bookings == t.bookings)
            && (promoted ==>
                  var next := t.bookings[k.value];
                  && u.passengers == PassengerService.Credited(clawedBack, next.passengerId, LoyaltyPoints(next.price))
                  && u.bookings == t.bookings[k.value := next.(status := Confirmed)])
  {
    var b := t.bookings[bookingId];
    var r := Released(t, bookingId);
    assert r.bookings == t.bookings;
    PromotionChangesAtMostOne(r, b.flightId);
  }

  /**
   * What cancelBooking does once it accepts: a WAITLISTED booking only becomes
   * CANCELLED; a CONFIRMED one becomes CANCELLED and then goes through
   * handleConfirmedCancellation, whose pick of the WAITLISTED booking to
   * promote is the one the flight had before the cancellation.
   */
  lemma {:induction false} CancellationEffects(t: Tables, bookingId: nat)
    requires bookingId < |t.bookings| && t.bookings[bookingId].flightId in t.flights
    requires forall i :: 0 <= i < |t.bookings| ==> t.bookings[i].passengerId in t.passengers
    ensures var u := Cancellation(t, bookingId);
            var b := t.bookings[bookingId];
            var marked := t.bookings[bookingId := b.(status := Cancelled)];
            && (b.status != Confirmed ==> u.flights == t.flights && u.passengers == t.passengers && u.bookings == marked)
            && (b.status == Confirmed ==>
                  var f := t.flights[b.flightId];
                  var released := if f.bookedSeats > 0 then f.bookedSeats - 1 else f.bookedSeats;
                  var clawedBack := PassengerService.Credited(t.passengers, b.passengerId, -LoyaltyPoints(b.price));
                  var k := FirstWaitlisted(t.bookings, b.flightId);
                  var promoted := k.Some? && released < OverbookingLimit(f.capacity);
                  && (forall fid :: fid in t.flights && fid != b.flightId ==> u.flights[fid] == t.flights[fid])
                  && u.flights[b.flightId] == f.(bookedSeats := if promoted then released + 1 else released)
                  && (!promoted ==> u.passengers == clawedBack && u.bookings == marked)
                  && (promoted ==>
                        var next := t.bookings[k.value];
                        && next.passengerId in clawedBack
                        && u.passengers == PassengerService.Credited(clawedBack, next.passengerId, LoyaltyPoints(next.price))
                        && u.bookings == marked[k.value := next.(status := Confirmed)]))
  {
    if t.bookings[bookingId].status == Confirmed {
      CancelledConfirmedEffects(t, bookingId);
    }
  }

  /** The CONFIRMED half of CancellationEffects, proved on its own. */
  lemma {:induction false} CancelledConfirmedEffects(t: Tables, bookingId: nat)
    requires bookingId < |t.bookings| && t.bookings[bookingId].flightId in t.flights
    requires forall i :: 0 <= i < |t.bookings| ==> t.bookings[i].passengerId in t.passengers
    requires t.bookings[bookingId].status == Confirmed
    ensures var u := Cancellation(t, bookingId);
            var b := t.bookings[bookingId];
            var marked := t.bookings[bookingId := b.(status := Cancelled)];
            var f := t.flights[b.flightId];
            var released := if f.bookedSeats > 0 then f.bookedSeats - 1 else f.bookedSeats;
            var clawedBack := PassengerService.Credited(t.passengers, b.passengerId, -LoyaltyPoints(b.price));
            var k := FirstWaitlisted(t.bookings, b.flightId);
            var promoted := k.Some? && released < OverbookingLimit(f.capacity);
            && u.flights.Keys == t.flights.Keys
            && (forall fid :: fid in t.flights && fid != b.flightId ==> u.flights[fid] == t.flights[fid])
            && u.flights[b.flightId] == f.(bookedSeats := if promoted then released + 1 else released)
            && (!promoted ==> u.passengers == clawedBack && u.bookings == marked)
            && (promoted ==>
                  var next := t.bookings[k.value];
                  && next.passengerId in clawedBack
                  && u.passengers == PassengerService.Credited(clawedBack, next.passengerId, LoyaltyPoints(next.price))
                  && u.bookings == marked[k.value := next.(status := Confirmed)])
  {
    var b := t.bookings[bookingId];
    var m := Marked(t, bookingId);
    var mb := m.bookings[bookingId];
    assert mb.flightId == b.flightId && mb.passengerId == b.passengerId && mb.price == b.price;
    assert m.flights == t.flights && m.passengers == t.passengers;
    var clawedBack := PassengerService.Credited(t.passengers, b.passengerId, -LoyaltyPoints(b.price));
    assert PassengerService.Credited(m.passengers, mb.passengerId, -LoyaltyPoints(mb.price)) == clawedBack;
    FirstWaitlistedIgnoresOthers(t.bookings, bookingId, b.(status := Cancelled), b.flightId);
    ConfirmedCancellationEffects(m, bookingId);
    var u := Cancellation(t, bookingId);
    assert u == ConfirmedCancellation(m, bookingId);
    var f := t.flights[b.flightId];
    var released := if f.bookedSeats > 0 then f.bookedSeats - 1 else f.bookedSeats;
    var k := FirstWaitlisted(t.bookings, b.flightId);
    if k.Some? && released < OverbookingLimit(f.capacity) {
      assert k.value != bookingId;
      var next := t.bookings[k.value];
      assert m.bookings[k.value] == next;
      assert u.passengers == PassengerService.Credited(clawedBack, next.passengerId, LoyaltyPoints(next.price));
    } else {
      assert u.passengers == clawedBack;
    }
  }

  /** Marking a booking CANCELLED keeps the ledger invariant and removes it from its flight's CONFIRMED count. */
  lemma {:induction false} MarkedKeepsLedger(t: Tables, bookingId: nat)
    requires Consistent(t) && bookingId < |t.bookings|
    ensures var m := Marked(t, bookingId);
            && Consistent(m) && Evolves(t.bookings, m.bookings)
            && forall id :: id in t.flights ==>
                 ConfirmedCount(m.bookings, id)
                 == ConfirmedCount(t.bookings, id) - (if IsConfirmedOn(t.bookings[bookingId], id) then 1 else 0)
  {
    var b := t.bookings[bookingId];
    var m := Marked(t, bookingId);
    forall id | id in t.flights
      ensures ConfirmedCount(m.bookings, id) == ConfirmedCount(t.bookings, id) - (if IsConfirmedOn(b, id) then 1 else 0)
    {
      ConfirmedCountUpdate(t.bookings, bookingId, b.(status := Cancelled), id);
    }
    SlotsUniqueAcrossStatusChanges(t.bookings, m.bookings);
  }

  /**
   * Releasing a cancelled CONFIRMED booking's seat keeps the ledger invariant
   * and restores every flight's offset: the counter falls with the count.
   */
  lemma {:induction false} ReleasedKeepsLedger(t: Tables, bookingId: nat)
    requires Consistent(t) && bookingId < |t.bookings| && t.bookings[bookingId].status == Confirmed
    ensures var r := Released(Marked(t, bookingId), bookingId);
            Consistent(r) && SameOffsets(t, r) && r.bookings == Marked(t, bookingId).bookings
  {
    var b := t.bookings[bookingId];
    var m := Marked(t, bookingId);
    MarkedKeepsLedger(t, bookingId);
    assert ConfirmedCount(t.bookings, b.flightId) >= 1;
    var r := Released(m, bookingId);
    ReleasedKeepsEntities(m, bookingId);
    assert forall id :: id in r.flights ==> FlightValid(r.flights[id]) && ConfirmedCount(r.bookings, id) <= r.flights[id].bookedSeats;
    assert forall i :: 0 <= i < |r.bookings| ==> r.bookings[i].flightId in r.flights && r.bookings[i].passengerId in r.passengers;
    assert Ledger(r.flights, r.passengers, r.bookings);
  }

  /**
   * Releasing a seat keeps both key sets, every flight valid, e-mails unique
   * and balances non-negative; only the booking's flight's counter moves,
   * down by one when it is positive.
   */
  lemma {:induction false} ReleasedKeepsEntities(t: Tables, bookingId: nat)
    requires bookingId < |t.bookings| && t.bookings[bookingId].flightId in t.flights
    requires t.bookings[bookingId].passengerId in t.passengers && forall id :: id in t.flights ==> FlightValid(t.flights[id])
    requires EmailsUnique(t.passengers) && forall p :: p in t.passengers ==> t.passengers[p].loyaltyPoints >= 0
    ensures var r := Released(t, bookingId);
            var b := t.bookings[bookingId];
            && r.flights.Keys == t.flights.Keys && r.passengers.Keys == t.passengers.Keys
            && (forall id :: id in r.flights ==> FlightValid(r.flights[id]))
            && (forall id :: id in t.flights && id != b.flightId ==> r.flights[id] == t.flights[id])
            && r.flights[b.flightId].bookedSeats == (if t.flights[b.flightId].bookedSeats > 0 then t.flights[b.flightId].bookedSeats - 1 else 0)
            && EmailsUnique(r.passengers) && (forall p :: p in r.passengers ==> r.passengers[p].loyaltyPoints >= 0)
  {
    var b := t.bookings[bookingId];
    var r := Released(t, bookingId);
    assert r.passengers == PassengerService.Credited(t.passengers, b.passengerId, -LoyaltyPoints(b.price));
    PassengerService.CreditedKeepsPassengers(t.passengers, b.passengerId, -LoyaltyPoints(b.price));
  }

  /** Offsets kept by each step are kept by the whole run: chains the steps of a cancellation. */
  lemma SameOffsetsTransitive(t: Tables, u: Tables, v: Tables)
    requires SameOffsets(t, u) && SameOffsets(u, v)
    ensures SameOffsets(t, v)
  {
  }

  /** Cancellation keeps the ledger invariant, every flight's offset, and the status machine; the booking ends CANCELLED. */
  lemma {:induction false} CancellationKeepsLedger(t: Tables, bookingId: nat)
    requires Consistent(t) && bookingId < |t.bookings| && t.bookings[bookingId].status != Cancelled
    ensures var u := Cancellation(t, bookingId);
            && Consistent(u) && SameOffsets(t, u) && Evolves(t.bookings, u.bookings)
            && u.bookings[bookingId].status == Cancelled
  {
    var b := t.bookings[bookingId];
    var m := Marked(t, bookingId);
    MarkedKeepsLedger(t, bookingId);
    if b.status == Confirmed {
      var r := Released(m, bookingId);
      ReleasedKeepsLedger(t, bookingId);
      PromotionKeepsLedger(r, b.flightId);
      var u := Promotion(r, b.flightId);
      assert Cancellation(t, bookingId) == u;
      SameOffsetsTransitive(t, r, u);
      EvolvesTransitive(t.bookings, m.bookings, u.bookings);
    } else {
      assert Cancellation(t, bookingId) == m;
    }
  }

  /**
   * Cancelling a CONFIRMED booking on a flight with a WAITLISTED booking and
   * room under the limit hands the seat on: bookedSeats ends where it was and
   * the earliest WAITLISTED booking is CONFIRMED.
   */
  lemma {:induction false} CancellationHandsSeatOn(t: Tables, bookingId: nat)
    requires Consistent(t) && bookingId < |t.bookings| && t.bookings[bookingId].status == Confirmed
    requires var fid := t.bookings[bookingId].flightId;
             FirstWaitlisted(t.bookings, fid).Some? &&
             t.flights[fid].bookedSeats - 1 < OverbookingLimit(t.flights[fid].capacity)
    ensures var fid := t.bookings[bookingId].flightId;
            var u := Cancellation(t, bookingId);
            var k := FirstWaitlisted(t.bookings, fid).value;
            && u.flights[fid].bookedSeats == t.flights[fid].bookedSeats
            && u.bookings[k] == t.bookings[k].(status := Confirmed)
            && u.bookings[bookingId].status == Cancelled
  {
    var b := t.bookings[bookingId];
    var fid := b.flightId;
    CancellationKeepsLedger(t, bookingId);
    ConfirmedCountUpdate(t.bookings, bookingId, b.(status := Cancelled), fid);
    FirstWaitlistedIgnoresOthers(t.bookings, bookingId, b.(status := Cancelled), fid);
  }

  /** handleConfirmedCancellation, on the repositories. */
  method HandleConfirmedCancellation(fr: FlightRepository, pr: PassengerRepository, br: BookingRepository, bookingId: nat)
    requires fr.Valid() && pr.Valid()
    requires bookingId < |br.bookings| && br.bookings[bookingId].flightId in fr.flights
    requires forall i :: 0 <= i < |br.bookings| ==> br.bookings[i].passengerId in pr.passengers
    modifies fr, pr, br
    ensures fr.Valid() && pr.Valid() && fr.nextId == old(fr.nextId) && pr.nextId == old(pr.nextId)
    ensures Snapshot(fr, pr, br) == ConfirmedCancellation(old(Snapshot(fr, pr, br)), bookingId)
  {
    var b := br.bookings[bookingId];
    var clawedBack := PassengerService.UpdateLoyaltyPoints(pr, b.passengerId, -LoyaltyPoints(b.price));
    var f := fr.flights[b.flightId];
    if f.bookedSeats > 0 {
      fr.Update(b.flightId, f.(bookedSeats := f.bookedSeats - 1));
    }
    PromoteWaitlistedToConfirmed(fr, pr, br, b.flightId);
  }

  /**
   * cancelBooking. Rejections, in order and before any change: unknown booking
   * (NotFound); a ROLE_USER caller who is not the booking's passenger
   * (AccessDenied), checked before the status; an already CANCELLED booking
   * (BadRequest). Otherwise the tables become Cancellation's.
   */
  method CancelBooking(fr: FlightRepository, pr: PassengerRepository, br: BookingRepository, caller: Caller, bookingId: nat)
    returns (r: Outcome)
    requires fr.Valid() && pr.Valid() && Ledger(fr.flights, pr.passengers, br.bookings)
    modifies fr, pr, br
    ensures fr.Valid() && pr.Valid() && Ledger(fr.flights, pr.passengers, br.bookings)
    ensures fr.nextId == old(fr.nextId) && pr.nextId == old(pr.nextId)
    ensures r.Fail? ==> Snapshot(fr, pr, br) == old(Snapshot(fr, pr, br))
    ensures bookingId >= |old(br.bookings)| ==> r == Fail(NotFound)
    ensures bookingId < |old(br.bookings)| ==>
      var b := old(br.bookings)[bookingId];
      if caller.isUser && old(pr.passengers)[b.passengerId].email != caller.email then r == Fail(AccessDenied)
      else if b.status == Cancelled then r == Fail(BadRequest(AlreadyCancelled))
      else r == Done && Snapshot(fr, pr, br) == Cancellation(old(Snapshot(fr, pr, br)), bookingId)
    ensures r == Done ==> SameOffsets(old(Snapshot(fr, pr, br)), Snapshot(fr, pr, br))
    ensures Evolves(old(br.bookings), br.bookings)
  {
    ghost var t := Snapshot(fr, pr, br);
    if bookingId >= |br.bookings| {
      return Fail(NotFound);
    }
    var b := br.bookings[bookingId];
    if caller.isUser && pr.passengers[b.passengerId].email != caller.email {
      return Fail(AccessDenied);
    }
    if b.status == Cancelled {
      return Fail(BadRequest(AlreadyCancelled));
    }
    var originalStatus := b.status;
    br.Update(bookingId, b.(status := Cancelled));
    if originalStatus == Confirmed {
      HandleConfirmedCancellation(fr, pr, br, bookingId);
    }
    CancellationKeepsLedger(t, bookingId);
    r := Done;
  }

  // ---------------------------------------------------------------- the nightly sweep

  /** A WAITLISTED booking whose flight departed before `now`. */
  predicate IsStale(b: Booking, flights: map<nat, Flight>, now: int) {
    b.status == Waitlisted && b.flightId in flights && flights[b.flightId].departure < now
  }

  /** The bookings after scheduledCancelOldWaitlisted: every stale booking CANCELLED, the others untouched. */
  function Swept(bookings: seq<Booking>, flights: map<nat, Flight>, now: int): (r: seq<Booking>)
    ensures |r| == |bookings|
    ensures forall i :: 0 <= i < |bookings| ==>
      r[i] == if IsStale(bookings[i], flights, now) then bookings[i].(status := Cancelled) else bookings[i]
  {
    seq(|bookings|, i requires 0 <= i < |bookings| =>
      if IsStale(bookings[i], flights, now) then bookings[i].(status := Cancelled) else bookings[i])
  }

  /** The sweep never touches a CONFIRMED booking, so every flight's CONFIRMED count is unchanged. */
  lemma {:induction false} SweepKeepsCounts(bookings: seq<Booking>, flights: map<nat, Flight>, now: int, flightId: nat)
    ensures ConfirmedCount(Swept(bookings, flights, now), flightId) == ConfirmedCount(bookings, flightId)
  {
    if bookings != [] {
      var n := |bookings| - 1;
      assert Swept(bookings, flights, now)[..n] == Swept(bookings[..n], flights, now);
      SweepKeepsCounts(bookings[..n], flights, now, flightId);
    }
  }

  /** A second sweep with the same `now` changes nothing. */
  lemma SweepIdempotent(bookings: seq<Booking>, flights: map<nat, Flight>, now: int)
    ensures Swept(Swept(bookings, flights, now), flights, now) == Swept(bookings, flights, now)
  {
  }

  /**
   * The sweep keeps the ledger invariant and the status machine, leaves no
   * stale booking behind, and (flights and passengers being untouched) keeps
   * every flight's offset.
   */
  lemma {:induction false} SweepKeepsLedger(t: Tables, now: int)
    requires Consistent(t)
    ensures var u := t.(bookings := Swept(t.bookings, t.flights, now));
            && Consistent(u) && SameOffsets(t, u) && Evolves(t.bookings, u.bookings)
            && forall i :: 0 <= i < |u.bookings| ==> !IsStale(u.bookings[i], u.flights, now)
  {
    var u := t.(bookings := Swept(t.bookings, t.flights, now));
    forall id | id in t.flights ensures ConfirmedCount(u.bookings, id) == ConfirmedCount(t.bookings, id) {
      SweepKeepsCounts(t.bookings, t.flights, now, id);
    }
    SlotsUniqueAcrossStatusChanges(t.bookings, u.bookings);
  }

  /** scheduledCancelOldWaitlisted: cancels the stale bookings one by one. */
  method ScheduledCancelOldWaitlisted(fr: FlightRepository, br: BookingRepository, now: int)
    modifies br
    ensures br.bookings == Swept(old(br.bookings), fr.flights, now)
  {
    var i := 0;
    while i < |br.bookings|
      invariant 0 <= i <= |br.bookings| == |old(br.bookings)|
      invariant forall j :: 0 <= j < i ==> br.bookings[j] == Swept(old(br.bookings), fr.flights, now)[j]
      invariant forall j :: i <= j < |br.bookings| ==> br.bookings[j] == old(br.bookings)[j]
    {
      var b := br.bookings[i];
      if IsStale(b, fr.flights, now) {
        br.Update(i, b.(status := Cancelled));
      }
      i := i + 1;
    }
  }
}
